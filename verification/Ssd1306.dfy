/**
 The page buffer of the SSD1306 display and its line drawing.

 The buffer holds eight rows per byte.  `drawPixel` changes one bit; the two
 fast line routines change whole bytes through masks.  Both are related to the
 set of panel pixels they change, and through it to each other.
 */
module Ssd1306 {
  import opened Arith
  import opened Bits
  import opened Machine

  datatype Color = Black | White | Inverse

  /** Panel size in pixels, unrotated (128x64, 128x32 and 96x16 in the source). */
  datatype Geometry = Geometry(w: nat, h: nat) {
    predicate Supported() {
      0 < w < 0x100 && 0 < h < 0x100 && h % 8 == 0
    }

    predicate OnPanel(x: int, y: int) {
      0 <= x < w && 0 <= y < h
    }

    function Size(): nat {
      (h / 8) * w
    }

    /** The byte that holds column x of page `page`. */
    function Index(page: int, x: int): int {
      page * w + x
    }
  }

  lemma NextPage(g: Geometry, page: int, x: int)
    ensures g.Index(page + 1, x) == g.Index(page, x) + g.w
  {
  }

  lemma IndexInside(g: Geometry, page: int, x: int)
    requires g.Supported() && 0 <= page < g.h / 8 && 0 <= x < g.w
    ensures 0 <= g.Index(page, x) < g.Size()
  {
    TimesMonotone(0, page, g.w);
    TimesMonotone(page + 1, g.h / 8, g.w);
  }

  /** Every byte is one column of one page. */
  lemma SplitInside(g: Geometry, i: nat)
    requires g.Supported() && i < g.Size()
    ensures 0 <= i / g.w < g.h / 8 && i == g.Index(i / g.w, i % g.w)
  {
    PageInside(i, g.w, g.h / 8);
  }

  lemma PageInside(i: nat, w: nat, pages: nat)
    requires w > 0 && i < pages * w
    ensures 0 <= i / w < pages && i == i / w * w + i % w
  {
    DivFacts(i, w);
    TimesMonotone(pages, i / w, w);
  }

  lemma IndexSplits(w: nat, page: int, x: int)
    requires 0 <= x < w
    ensures (page * w + x) / w == page && (page * w + x) % w == x
  {
    DivUnique(page * w + x, w, page);
  }

  // ---------------------------------------------------------------- pixel sets

  /** A line of panel pixels: its direction, where it starts along it, and the other coordinate. */
  datatype PanelLine = PanelLine(vert: bool, along: int, across: int) {
    predicate Has(n: int, x: int, y: int) {
      if vert then x == across && along <= y < along + n else y == across && along <= x < along + n
    }
  }

  function Ink(c: Color, was: bool, hit: bool): bool {
    if !hit then was else match c case White => true case Black => false case Inverse => !was
  }

  /** `after` is `before` with exactly the pixels of the line changed, each once. */
  ghost predicate Drawn(g: Geometry, before: seq<Byte>, after: seq<Byte>, c: Color, l: PanelLine, n: int)
    requires g.w > 0
  {
    && |before| == |after|
    && forall i, k {:trigger after[i][k]} :: 0 <= i < |after| && 0 <= k < 8 ==>
         after[i][k] == Ink(c, before[i][k], l.Has(n, i % g.w, i / g.w * 8 + k))
  }

  lemma DrawnIsUnique(g: Geometry, before: seq<Byte>, a: seq<Byte>, b: seq<Byte>, c: Color, l: PanelLine, n: int)
    requires g.w > 0 && Drawn(g, before, a, c, l, n) && Drawn(g, before, b, c, l, n)
    ensures a == b
  {
    forall i | 0 <= i < |a|
      ensures a[i] == b[i]
    {
      assert forall k :: 0 <= k < 8 ==> a[i][k] == b[i][k];
    }
  }

  /** In byte (page, x) the line l' has the pixels of l and, besides them, those of `mask`. */
  predicate GainsMask(l: PanelLine, n: int, l': PanelLine, n': int, page: int, x: int, mask: Byte) {
    forall k :: 0 <= k < 8 ==>
      (mask[k] ==> !l.Has(n, x, page * 8 + k)) && l'.Has(n', x, page * 8 + k) == (l.Has(n, x, page * 8 + k) || mask[k])
  }

  ghost predicate SameElsewhere(g: Geometry, l: PanelLine, n: int, l': PanelLine, n': int, page: int, x: int) {
    forall p, q :: g.OnPanel(p, q) && (p != x || q / 8 != page) ==> l'.Has(n', p, q) == l.Has(n, p, q)
  }

  /** One more byte of a line: the new pixels lie in one byte and are the bits of `mask`. */
  lemma DrawnGrows(g: Geometry, before: seq<Byte>, mid: seq<Byte>, after: seq<Byte>, c: Color, l: PanelLine, n: int,
                   l': PanelLine, n': int, page: int, x: int, mask: Byte)
    requires g.Supported() && |before| == g.Size() && Drawn(g, before, mid, c, l, n)
    requires 0 <= page < g.h / 8 && 0 <= x < g.w
    requires 0 <= g.Index(page, x) < |mid|
    requires after == mid[g.Index(page, x) := Paint(mid[g.Index(page, x)], mask, c)]
    requires GainsMask(l, n, l', n', page, x, mask) && SameElsewhere(g, l, n, l', n', page, x)
    ensures Drawn(g, before, after, c, l', n')
  {
    IndexSplits(g.w, page, x);
    forall i, k | 0 <= i < |after| && 0 <= k < 8
      ensures after[i][k] == Ink(c, before[i][k], l'.Has(n', i % g.w, i / g.w * 8 + k))
    {
      var p, q := i % g.w, i / g.w * 8 + k;
      assert mid[i][k] == Ink(c, before[i][k], l.Has(n, p, q));
      if i != g.Index(page, x) {
        SplitInside(g, i);
        assert g.OnPanel(p, q) && q / 8 == i / g.w;
      }
    }
  }

  function Paint(b: Byte, mask: Byte, c: Color): (r: Byte)
    ensures forall k :: 0 <= k < 8 ==> r[k] == Ink(c, b[k], mask[k])
  {
    match c
    case White => Or(b, mask)
    case Black => And(b, Not(mask))
    case Inverse => Xor(b, mask)
  }

  // ---------------------------------------------------------------- masks

  /** The mask of bits lo, lo+1, ..., lo+n-1. */
  function Band(lo: int, n: int): Byte {
    seq(8, k requires 0 <= k < 8 => lo <= k < lo + n)
  }

  const PREMASK: seq<nat> := [0x00, 0x80, 0xC0, 0xE0, 0xF0, 0xF8, 0xFC, 0xFE]
  const POSTMASK: seq<nat> := [0x00, 0x01, 0x03, 0x07, 0x0F, 0x1F, 0x3F, 0x7F]

  lemma PowersOfTwo()
    ensures PowerOfTwo(0) == 1 && PowerOfTwo(1) == 2 && PowerOfTwo(2) == 4 && PowerOfTwo(3) == 8
    ensures PowerOfTwo(4) == 16 && PowerOfTwo(5) == 32 && PowerOfTwo(6) == 64 && PowerOfTwo(7) == 128
  {
    assert PowerOfTwo(2) == 4 && PowerOfTwo(4) == 16;
  }

  lemma OctetBits(n: nat)
    ensures Octet(n)[0] == (n % 2 == 1) && Octet(n)[1] == (n / 2 % 2 == 1)
    ensures Octet(n)[2] == (n / 4 % 2 == 1) && Octet(n)[3] == (n / 8 % 2 == 1)
    ensures Octet(n)[4] == (n / 16 % 2 == 1) && Octet(n)[5] == (n / 32 % 2 == 1)
    ensures Octet(n)[6] == (n / 64 % 2 == 1) && Octet(n)[7] == (n / 128 % 2 == 1)
  {
    PowersOfTwo();
    hide PowerOfTwo;
  }

  lemma TopBits(mod: nat)
    requires 0 < mod < 8
    ensures Octet(PREMASK[mod]) == Band(8 - mod, mod)
  {
    hide Octet, Band;
    match mod
    case 1 => OctetIsBand(0x80, 7, 1);
    case 2 => OctetIsBand(0xC0, 6, 2);
    case 3 => OctetIsBand(0xE0, 5, 3);
    case 4 => OctetIsBand(0xF0, 4, 4);
    case 5 => OctetIsBand(0xF8, 3, 5);
    case 6 => OctetIsBand(0xFC, 2, 6);
    case 7 => OctetIsBand(0xFE, 1, 7);
  }

  lemma BandBit(lo: int, n: int, k: nat)
    requires k < 8
    ensures Band(lo, n)[k] == (lo <= k < lo + n)
  {
  }

  lemma SameBits(a: Byte, b: Byte)
    requires a[0] == b[0] && a[1] == b[1] && a[2] == b[2] && a[3] == b[3]
    requires a[4] == b[4] && a[5] == b[5] && a[6] == b[6] && a[7] == b[7]
    ensures a == b
  {
  }

  /** The bytes made of a few constants are bands. */
  lemma OctetIsBand(n: nat, lo: int, len: int)
    requires (n % 2 == 1) == (lo <= 0 < lo + len) && (n / 2 % 2 == 1) == (lo <= 1 < lo + len)
    requires (n / 4 % 2 == 1) == (lo <= 2 < lo + len) && (n / 8 % 2 == 1) == (lo <= 3 < lo + len)
    requires (n / 16 % 2 == 1) == (lo <= 4 < lo + len) && (n / 32 % 2 == 1) == (lo <= 5 < lo + len)
    requires (n / 64 % 2 == 1) == (lo <= 6 < lo + len) && (n / 128 % 2 == 1) == (lo <= 7 < lo + len)
    ensures Octet(n) == Band(lo, len)
  {
    hide Octet, Band;
    OctetBits(n);
    BandBit(lo, len, 0);
    BandBit(lo, len, 1);
    BandBit(lo, len, 2);
    BandBit(lo, len, 3);
    BandBit(lo, len, 4);
    BandBit(lo, len, 5);
    BandBit(lo, len, 6);
    BandBit(lo, len, 7);
    SameBits(Octet(n), Band(lo, len));
  }

  /** A masked-off first byte: the top `mod` bits, or only the first `h` of them. */
  lemma FirstMaskIsBand(mod: nat, h: nat)
    requires 0 < mod < 8
    ensures Octet(PREMASK[mod]) == Band(8 - mod, mod)
    ensures h < mod ==> And(Octet(PREMASK[mod]), Shr(Octet(0xFF), mod - h)) == Band(8 - mod, h)
  {
    TopBits(mod);
    AllBits();
  }

  lemma AllBits()
    ensures Octet(0xFF) == Band(0, 8)
  {
    hide Octet, Band;
    OctetIsBand(0xFF, 0, 8);
  }

  lemma LastMaskIsBand(h: nat)
    requires h < 8
    ensures Octet(POSTMASK[h]) == Band(0, h)
  {
    hide Octet, Band;
    match h
    case 0 => OctetIsBand(0x00, 0, 0);
    case 1 => OctetIsBand(0x01, 0, 1);
    case 2 => OctetIsBand(0x03, 0, 2);
    case 3 => OctetIsBand(0x07, 0, 3);
    case 4 => OctetIsBand(0x0F, 0, 4);
    case 5 => OctetIsBand(0x1F, 0, 5);
    case 6 => OctetIsBand(0x3F, 0, 6);
    case 7 => OctetIsBand(0x7F, 0, 7);
  }

  lemma RowMaskIsBand(k: nat)
    requires k < 8
    ensures Shl(Octet(1), k) == Band(k, 1)
  {
    var a := Octet(1);
    forall i | 0 <= i < 8
      ensures a[i] == (i == 0)
    {
      PowersOfTwo();
    }
    hide Octet;
  }

  lemma SolidBytes(b: Byte, c: Color)
    ensures Paint(b, Band(0, 8), c) == if c == White then Octet(255) else if c == Black then Octet(0) else Not(b)
  {
    PowersOfTwo();
  }

  // ---------------------------------------------------------------- pixel by pixel

  /** The panel pixel that `drawPixel` reaches from (x, y) under rotation `rot`. */
  function Rotate(g: Geometry, rot: nat, x: int, y: int): (int, int) {
    if rot == 1 then (g.w - y - 1, x)
    else if rot == 2 then (g.w - x - 1, g.h - y - 1)
    else if rot == 3 then (y, g.h - x - 1)
    else (x, y)
  }

  /** Width and height as the caller sees them under rotation `rot`. */
  function Extent(g: Geometry, rot: nat): (int, int) {
    if rot % 2 == 0 then (g.w, g.h) else (g.h, g.w)
  }

  predicate Visible(g: Geometry, rot: nat, x: int, y: int) {
    0 <= x < Extent(g, rot).0 && 0 <= y < Extent(g, rot).1
  }

  /** What `drawPixel` leaves in the buffer. */
  function Plot(g: Geometry, rot: nat, buf: seq<Byte>, x: int, y: int, c: Color): (r: seq<Byte>)
    requires g.Supported() && rot < 4 && |buf| == g.Size()
    ensures |r| == |buf|
  {
    if Visible(g, rot, x, y) then
      var p := Rotate(g, rot, x, y);
      IndexInside(g, p.1 / 8, p.0);
      var i := g.Index(p.1 / 8, p.0);
      buf[i := Paint(buf[i], Band(p.1 % 8, 1), c)]
    else
      buf
  }

  /** The pixel i steps along a line, as the caller counts. */
  function Along(x: int, y: int, vert: bool, i: int): (int, int) {
    if vert then (x, y + i) else (x + i, y)
  }

  /** The simple form of a line: `drawPixel` once for each of its `n` pixels, in order. */
  function PixelByPixel(g: Geometry, rot: nat, buf: seq<Byte>, x: int, y: int, vert: bool, n: int,
                        c: Color): (r: seq<Byte>)
    requires g.Supported() && rot < 4 && |buf| == g.Size()
    ensures |r| == |buf|
    decreases n
  {
    if n <= 0 then buf
    else
      var before := PixelByPixel(g, rot, buf, x, y, vert, n - 1, c);
      var e := Along(x, y, vert, n - 1);
      Plot(g, rot, before, e.0, e.1, c)
  }

  /** Whether a rotation counts the caller's x, or y, from the far edge of the panel. */
  predicate FarX(rot: nat) {
    rot == 2 || rot == 3
  }

  predicate FarY(rot: nat) {
    rot == 1 || rot == 2
  }

  /** The panel line covered by the n pixels of a rotated line. */
  function PanelImage(g: Geometry, rot: nat, x: int, y: int, vert: bool, n: int): PanelLine {
    var vert' := vert != (rot % 2 == 1);
    var L, M := if vert' then g.h else g.w, if vert' then g.w else g.h;
    if vert
    then PanelLine(vert', if FarY(rot) then L - y - n else y, if FarX(rot) then M - x - 1 else x)
    else PanelLine(vert', if FarX(rot) then L - x - n else x, if FarY(rot) then M - y - 1 else y)
  }

  /** The line (l', n') is the line (l, n) and the pixel e beside it. */
  ghost predicate Gains(l: PanelLine, n: int, l': PanelLine, n': int, e: (int, int)) {
    && !l.Has(n, e.0, e.1)
    && forall p, q :: l'.Has(n', p, q) == (l.Has(n, p, q) || (p == e.0 && q == e.1))
  }

  lemma PlotPaints(g: Geometry, rot: nat, buf: seq<Byte>, x: int, y: int, c: Color)
    requires g.Supported() && rot < 4 && |buf| == g.Size() && Visible(g, rot, x, y)
    ensures var p := Rotate(g, rot, x, y);
            && 0 <= g.Index(p.1 / 8, p.0) < |buf|
            && Plot(g, rot, buf, x, y, c) ==
               buf[g.Index(p.1 / 8, p.0) := Paint(buf[g.Index(p.1 / 8, p.0)], Band(p.1 % 8, 1), c)]
  {
    var p := Rotate(g, rot, x, y);
    IndexInside(g, p.1 / 8, p.0);
    hide Paint, Band;
  }

  /** Pixel (p, q) of the panel: bit q % 8 of column p in page q / 8. */
  predicate Lit(g: Geometry, buf: seq<Byte>, p: int, q: int)
    requires g.Supported() && |buf| == g.Size() && g.OnPanel(p, q)
  {
    IndexInside(g, q / 8, p);
    buf[g.Index(q / 8, p)][q % 8]
  }

  /** A step on the panel after k quarter turns clockwise, y growing downwards. */
  function Turned(v: (int, int), k: nat): (int, int) {
    if k == 0 then v else var u := Turned(v, k - 1); (-u.1, u.0)
  }

  lemma TurnedOnce(v: (int, int), k: nat)
    ensures Turned(v, 0) == v && Turned(v, k + 1) == (-Turned(v, k).1, Turned(v, k).0)
  {
  }

  lemma AxesTurned(rot: nat)
    requires rot < 4
    ensures Turned((1, 0), rot) == [(1, 0), (0, 1), (-1, 0), (0, -1)][rot]
    ensures Turned((0, 1), rot) == [(0, 1), (-1, 0), (0, -1), (1, 0)][rot]
  {
    hide Turned;
    TurnedOnce((1, 0), 0);
    TurnedOnce((1, 0), 1);
    TurnedOnce((1, 0), 2);
    TurnedOnce((0, 1), 0);
    TurnedOnce((0, 1), 1);
    TurnedOnce((0, 1), 2);
  }

  lemma Scaled(x: int, a: int)
    ensures a == 0 ==> x * a == 0
    ensures a == 1 ==> x * a == x
    ensures a == -1 ==> x * a == -x
  {
  }

  /** Rotation `rot` turns the picture `rot` times: so do the steps of its axes, and its origin stays a corner. */
  lemma RotationTurns(g: Geometry, rot: nat, x: int, y: int)
    requires rot < 4
    ensures Rotate(g, rot, 0, 0) == (if rot in {1, 2} then g.w - 1 else 0, if rot in {2, 3} then g.h - 1 else 0)
    ensures var p, q := Rotate(g, rot, x, y), Rotate(g, rot, x + 1, y); (q.0 - p.0, q.1 - p.1) == Turned((1, 0), rot)
    ensures var p, q := Rotate(g, rot, x, y), Rotate(g, rot, x, y + 1); (q.0 - p.0, q.1 - p.1) == Turned((0, 1), rot)
  {
    hide Turned;
    AxesTurned(rot);
  }

  /** Where a pixel lands: x and y turned steps from the corner that is the origin. */
  function Landing(g: Geometry, rot: nat, x: int, y: int): (int, int) {
    var right, down := Turned((1, 0), rot), Turned((0, 1), rot);
    ((if rot in {1, 2} then g.w - 1 else 0) + x * right.0 + y * down.0,
     (if rot in {2, 3} then g.h - 1 else 0) + x * right.1 + y * down.1)
  }

  lemma LandingIs(g: Geometry, rot: nat, x: int, y: int)
    requires rot < 4
    ensures Rotate(g, rot, x, y) == Landing(g, rot, x, y)
  {
    hide Turned;
    AxesTurned(rot);
    var right, down := Turned((1, 0), rot), Turned((0, 1), rot);
    Scaled(x, right.0);
    Scaled(x, right.1);
    Scaled(y, down.0);
    Scaled(y, down.1);
  }

  /** Painting one bit of one byte changes one panel pixel. */
  lemma PaintLands(g: Geometry, buf: seq<Byte>, x: int, y: int, c: Color, p: int, q: int)
    requires g.Supported() && |buf| == g.Size() && g.OnPanel(x, y) && g.OnPanel(p, q)
    ensures 0 <= g.Index(y / 8, x) < |buf|
    ensures var i := g.Index(y / 8, x);
            Lit(g, buf[i := Paint(buf[i], Band(y % 8, 1), c)], p, q) == Ink(c, Lit(g, buf, p, q), (p, q) == (x, y))
  {
    IndexInside(g, y / 8, x);
    IndexInside(g, q / 8, p);
    SameByte(g.w, y / 8, x, q / 8, p);
    BandBit(y % 8, 1, q % 8);
    hide Band;
  }

  /** Inside the picture as the caller sees it: odd rotations exchange width and height. */
  predicate InPicture(g: Geometry, rot: nat, x: int, y: int) {
    0 <= x < (if rot in {0, 2} then g.w else g.h) && 0 <= y < (if rot in {0, 2} then g.h else g.w)
  }

  /** drawPixel sets, clears or inverts the panel pixel where (x, y) lands, and no other; outside the picture none. */
  lemma PlotLands(g: Geometry, rot: nat, buf: seq<Byte>, x: int, y: int, c: Color, p: int, q: int)
    requires g.Supported() && rot < 4 && |buf| == g.Size() && g.OnPanel(p, q)
    ensures var hit, was := InPicture(g, rot, x, y) && (p, q) == Landing(g, rot, x, y), Lit(g, buf, p, q);
            Lit(g, Plot(g, rot, buf, x, y, c), p, q) ==
              if !hit then was else if c == White then true else if c == Black then false else !was
  {
    hide Landing, Rotate, Plot, Lit;
    LandingIs(g, rot, x, y);
    PlotInks(g, rot, buf, x, y, c, p, q);
  }

  lemma PlotInks(g: Geometry, rot: nat, buf: seq<Byte>, x: int, y: int, c: Color, p: int, q: int)
    requires g.Supported() && rot < 4 && |buf| == g.Size() && g.OnPanel(p, q)
    ensures Lit(g, Plot(g, rot, buf, x, y, c), p, q) ==
            Ink(c, Lit(g, buf, p, q), Visible(g, rot, x, y) && (p, q) == Rotate(g, rot, x, y))
  {
    if Visible(g, rot, x, y) {
      var e := Rotate(g, rot, x, y);
      assert g.OnPanel(e.0, e.1);
      PlotPaints(g, rot, buf, x, y, c);
      hide Rotate, Plot, Band, Visible, Extent, Paint, Lit, Ink;
      PaintLands(g, buf, e.0, e.1, c, p, q);
    }
  }

  lemma SameByte(w: nat, page: int, x: int, page': int, x': int)
    requires 0 <= x < w && 0 <= x' < w
    ensures page * w + x == page' * w + x' <==> page == page' && x == x'
  {
    IndexSplits(w, page, x);
    IndexSplits(w, page', x');
  }

  /** The last pixel of a line is the one its image gains. */
  lemma ImageGrows(g: Geometry, rot: nat, x: int, y: int, vert: bool, n: int)
    requires rot < 4 && n > 0
    ensures Gains(PanelImage(g, rot, x, y, vert, n - 1), n - 1, PanelImage(g, rot, x, y, vert, n), n,
                  Rotate(g, rot, Along(x, y, vert, n - 1).0, Along(x, y, vert, n - 1).1))
  {
  }

  lemma PlotDraws(g: Geometry, rot: nat, before: seq<Byte>, mid: seq<Byte>, x: int, y: int, c: Color, l: PanelLine,
                  n: int, l': PanelLine, n': int)
    requires g.Supported() && rot < 4 && |before| == g.Size() && Drawn(g, before, mid, c, l, n)
    requires Gains(l, n, l', n', Rotate(g, rot, x, y))
    ensures Drawn(g, before, Plot(g, rot, mid, x, y, c), c, l', n')
  {
    var e := Rotate(g, rot, x, y);
    if Visible(g, rot, x, y) {
      IndexInside(g, e.1 / 8, e.0);
      BitDraws(g, before, mid, Plot(g, rot, mid, x, y, c), c, l, n, l', n', e);
    } else {
      DrawnSame(g, before, mid, c, l, n, l', n');
    }
  }

  lemma BitDraws(g: Geometry, before: seq<Byte>, mid: seq<Byte>, after: seq<Byte>, c: Color, l: PanelLine, n: int,
                 l': PanelLine, n': int, e: (int, int))
    requires g.Supported() && |before| == g.Size() && Drawn(g, before, mid, c, l, n) && Gains(l, n, l', n', e)
    requires g.OnPanel(e.0, e.1) && 0 <= g.Index(e.1 / 8, e.0) < |mid|
    requires var i := g.Index(e.1 / 8, e.0); after == mid[i := Paint(mid[i], Band(e.1 % 8, 1), c)]
    ensures Drawn(g, before, after, c, l', n')
  {
    var page := e.1 / 8;
    assert forall k :: 0 <= k < 8 ==> (page * 8 + k == e.1) == Band(e.1 % 8, 1)[k];
    DrawnGrows(g, before, mid, after, c, l, n, l', n', page, e.0, Band(e.1 % 8, 1));
  }

  /** Only pixels of the panel matter. */
  lemma DrawnSame(g: Geometry, before: seq<Byte>, after: seq<Byte>, c: Color, l: PanelLine, n: int, l': PanelLine,
                  n': int)
    requires g.Supported() && |before| == g.Size() && Drawn(g, before, after, c, l, n)
    requires forall p, q :: g.OnPanel(p, q) ==> l'.Has(n', p, q) == l.Has(n, p, q)
    ensures Drawn(g, before, after, c, l', n')
  {
    forall i, k | 0 <= i < |after| && 0 <= k < 8
      ensures after[i][k] == Ink(c, before[i][k], l'.Has(n', i % g.w, i / g.w * 8 + k))
    {
      SplitInside(g, i);
      assert g.OnPanel(i % g.w, i / g.w * 8 + k);
    }
  }

  /** Drawing pixel by pixel under any rotation changes exactly the pixels of the image, each once. */
  lemma {:induction false} PixelByPixelDraws(g: Geometry, rot: nat, buf: seq<Byte>, x: int, y: int, vert: bool,
                                             n: nat, c: Color)
    requires g.Supported() && rot < 4 && |buf| == g.Size()
    ensures Drawn(g, buf, PixelByPixel(g, rot, buf, x, y, vert, n, c), c, PanelImage(g, rot, x, y, vert, n), n)
  {
    if n > 0 {
      PixelByPixelDraws(g, rot, buf, x, y, vert, n - 1, c);
      ImageGrows(g, rot, x, y, vert, n);
      var e := Along(x, y, vert, n - 1);
      PlotDraws(g, rot, buf, PixelByPixel(g, rot, buf, x, y, vert, n - 1, c), e.0, e.1, c,
                PanelImage(g, rot, x, y, vert, n - 1), n - 1, PanelImage(g, rot, x, y, vert, n), n);
    }
  }

  // ---------------------------------------------------------------- fast lines

  /** A coordinate, and the start of n pixels, counted from the far edge and stored in `int16_t`s. */
  function Far(u: int, limit: int): int {
    I16(limit - u - 1)
  }

  function FarStart(u: int, n: int, limit: int): int {
    I16(Far(u, limit) - (n - 1))
  }

  /** What the source computes for the panel line, each `int16_t` store included. */
  function FastLine(g: Geometry, rot: nat, x: int, y: int, vert: bool, n: int): PanelLine {
    var vert' := vert != (rot % 2 == 1);
    var L, M := if vert' then g.h else g.w, if vert' then g.w else g.h;
    if vert
    then PanelLine(vert', if FarY(rot) then FarStart(y, n, L) else y, if FarX(rot) then Far(x, M) else x)
    else PanelLine(vert', if FarX(rot) then FarStart(x, n, L) else x, if FarY(rot) then Far(y, M) else y)
  }

  /** Start and length after the source's clipping against [0, limit). */
  function Clip(start: int, n: int, limit: nat): (r: (nat, int))
    ensures r.1 <= 0 || r.0 + r.1 <= limit
  {
    var len := if start < 0 then I16(n + start) else n;
    var from := if start < 0 then 0 else start;
    (from, if from + len > limit then limit - from else len)
  }

  /** The line and length the internal routines draw; length 0 when they return early. */
  function Clipped(g: Geometry, l: PanelLine, n: int): (r: (PanelLine, int)) {
    if 0 <= l.across < (if l.vert then g.w else g.h) then
      var k := Clip(l.along, n, if l.vert then g.h else g.w);
      (l.(along := k.0), k.1)
    else
      (l, 0)
  }

  /**
   The one family of inputs the fast routines get wrong: a negative length whose
   clipping sum `start + n` falls below the `int16_t` range, on a row or column of the panel.
   */
  predicate ClipUnderflows(g: Geometry, rot: nat, x: int, y: int, vert: bool, n: int) {
    var l := FastLine(g, rot, x, y, vert, n);
    && 0 <= l.across < (if l.vert then g.w else g.h)
    && l.along < 0
    && -0x1_0000 < n + l.along < -0x8000
  }

  /** Clipping keeps the covered positions of [0, limit), for a start that was stored in an `int16_t`. */
  lemma ClipCovers(start: int, n: int, limit: nat, p: int)
    requires IsI16(start) && IsI16(n) && 0 <= p < limit
    requires start < 0 ==> n + start >= -0x8000 || n + start == -0x1_0000
    ensures var k := Clip(start, n, limit);
            (k.0 <= p < k.0 + k.1) == (start <= p < start + n)
  {
  }

  /** A start counted from the far edge: wrap-around moves it to where no position of the panel is covered. */
  lemma FarStartCovers(u: int, n: int, limit: nat, p: int)
    requires IsI16(u) && IsI16(n) && 0 <= p < limit < 0x100
    ensures var start := FarStart(u, n, limit);
            (start <= p < start + n) == (limit - u - n <= p < limit - u)
  {
    I16Once(limit - u - 1);
    I16Once(Far(u, limit) - (n - 1));
  }

  lemma FarAcross(u: int, limit: nat, p: int)
    requires IsI16(u) && 0 <= p < limit < 0x100
    ensures (p == Far(u, limit)) == (p == limit - u - 1)
  {
    I16Once(limit - u - 1);
  }

  lemma ClippedCovers(g: Geometry, l: PanelLine, n: int, p: int, q: int)
    requires IsI16(l.along) && IsI16(n) && g.OnPanel(p, q)
    requires 0 <= l.across < (if l.vert then g.w else g.h) && l.along < 0 ==> !(-0x1_0000 < n + l.along < -0x8000)
    ensures Clipped(g, l, n).0.Has(Clipped(g, l, n).1, p, q) == l.Has(n, p, q)
  {
    if 0 <= l.across < (if l.vert then g.w else g.h) {
      if l.vert {
        ClipCovers(l.along, n, g.h, q);
      } else {
        ClipCovers(l.along, n, g.w, p);
      }
    }
  }

  /** Before clipping, the stored line covers the same panel pixels as the image. */
  lemma FastLineHas(g: Geometry, rot: nat, x: int, y: int, vert: bool, n: int, p: int, q: int)
    requires g.Supported() && rot < 4 && IsI16(x) && IsI16(y) && IsI16(n) && g.OnPanel(p, q)
    ensures FastLine(g, rot, x, y, vert, n).Has(n, p, q) == PanelImage(g, rot, x, y, vert, n).Has(n, p, q)
  {
    var vert' := vert != (rot % 2 == 1);
    var L, M := if vert' then g.h else g.w, if vert' then g.w else g.h;
    var s, t := if vert' then q else p, if vert' then p else q;
    if vert {
      FarStartCovers(y, n, L, s);
      FarAcross(x, M, t);
    } else {
      FarStartCovers(x, n, L, s);
      FarAcross(y, M, t);
    }
  }

  /** In the failing family the first pixel of the panel row or column is hit although n < 0. */
  lemma UnderflowHits(g: Geometry, rot: nat, x: int, y: int, vert: bool, n: int)
    requires g.Supported() && rot < 4 && IsI16(x) && IsI16(y) && IsI16(n)
    requires ClipUnderflows(g, rot, x, y, vert, n)
    ensures n < 0
    ensures var f := Clipped(g, FastLine(g, rot, x, y, vert, n), n);
            if f.0.vert then f.0.Has(f.1, f.0.across, 0) else f.0.Has(f.1, 0, f.0.across)
  {
    var l := FastLine(g, rot, x, y, vert, n);
    assert IsI16(l.along);
    hide FastLine;
    ClipHits(l.along, n, if l.vert then g.h else g.w);
    hide Clip;
  }

  /** A sum that wraps around becomes a length. */
  lemma ClipHits(start: int, n: int, limit: nat)
    requires start < 0 && limit > 0 && -0x1_0000 < n + start < -0x8000
    ensures Clip(start, n, limit).0 == 0 && Clip(start, n, limit).1 > 0
  {
    I16Once(n + start);
    hide I16;
  }

  /** What a fast line leaves in the buffer. */
  ghost predicate FastDrawn(g: Geometry, rot: nat, before: seq<Byte>, after: seq<Byte>, x: int, y: int, vert: bool,
                            n: int, c: Color)
    requires g.Supported()
  {
    var f := Clipped(g, FastLine(g, rot, x, y, vert, n), n);
    Drawn(g, before, after, c, f.0, f.1)
  }

  /**
   For every rotation, start, length and colour a fast line leaves exactly what
   `drawPixel` on each of its pixels leaves, unless the clipping sum underflows.
   */
  lemma FastIsPixelByPixel(g: Geometry, rot: nat, before: seq<Byte>, after: seq<Byte>, x: int, y: int, vert: bool,
                           n: int, c: Color)
    requires g.Supported() && rot < 4 && |before| == g.Size() && IsI16(x) && IsI16(y) && IsI16(n)
    requires FastDrawn(g, rot, before, after, x, y, vert, n, c)
    requires !ClipUnderflows(g, rot, x, y, vert, n)
    ensures after == PixelByPixel(g, rot, before, x, y, vert, n, c)
  {
    var l := FastLine(g, rot, x, y, vert, n);
    var image := PanelImage(g, rot, x, y, vert, n);
    forall p, q | g.OnPanel(p, q)
      ensures image.Has(n, p, q) == Clipped(g, l, n).0.Has(Clipped(g, l, n).1, p, q)
    {
      FastLineHas(g, rot, x, y, vert, n, p, q);
      ClippedCovers(g, l, n, p, q);
    }
    DrawnSame(g, before, after, c, Clipped(g, l, n).0, Clipped(g, l, n).1, image, n);
    if n >= 0 {
      PixelByPixelDraws(g, rot, before, x, y, vert, n, c);
    }
    DrawnIsUnique(g, before, after, PixelByPixel(g, rot, before, x, y, vert, n, c), c, image, n);
  }

  /** In the failing family a line of negative length is drawn: an inverting one shows it on any buffer. */
  lemma UnderflowIsVisible(g: Geometry, rot: nat, before: seq<Byte>, after: seq<Byte>, x: int, y: int, vert: bool,
                           n: int)
    requires g.Supported() && rot < 4 && |before| == g.Size() && IsI16(x) && IsI16(y) && IsI16(n)
    requires FastDrawn(g, rot, before, after, x, y, vert, n, Inverse)
    requires ClipUnderflows(g, rot, x, y, vert, n)
    ensures after != PixelByPixel(g, rot, before, x, y, vert, n, Inverse) == before
  {
    UnderflowHits(g, rot, x, y, vert, n);
    var f := Clipped(g, FastLine(g, rot, x, y, vert, n), n);
    var p, q := if f.0.vert then f.0.across else 0, if f.0.vert then 0 else f.0.across;
    assert g.OnPanel(p, q) && f.0.Has(f.1, p, q);
    hide Drawn, Clipped, FastLine, ClipUnderflows, PanelLine.Has;
    HitChanges(g, before, after, f.0, f.1, p, q);
  }

  lemma HitChanges(g: Geometry, before: seq<Byte>, after: seq<Byte>, l: PanelLine, n: int, p: int, q: int)
    requires g.Supported() && |before| == g.Size() && g.OnPanel(p, q)
    requires Drawn(g, before, after, Inverse, l, n) && l.Has(n, p, q)
    ensures after != before
  {
    IndexInside(g, q / 8, p);
    IndexSplits(g.w, q / 8, p);
    var i := g.Index(q / 8, p);
    assert after[i][q % 8] == Ink(Inverse, before[i][q % 8], l.Has(n, p, q));
  }

  /** The buffer a line leaves, given bit by bit. */
  function Inked(g: Geometry, before: seq<Byte>, c: Color, l: PanelLine, n: int): (after: seq<Byte>)
    requires g.w > 0
    ensures Drawn(g, before, after, c, l, n)
  {
    seq(|before|, i requires 0 <= i < |before| =>
      seq(8, k requires 0 <= k < 8 => Ink(c, before[i][k], l.Has(n, i % g.w, i / g.w * 8 + k))))
  }

  /** The fast routine agrees with the simple form on every buffer and colour. */
  ghost predicate Agrees(g: Geometry, rot: nat, x: int, y: int, vert: bool, n: int)
    requires g.Supported() && rot < 4
  {
    forall before: seq<Byte>, after, c | |before| == g.Size() && FastDrawn(g, rot, before, after, x, y, vert, n, c) ::
      after == PixelByPixel(g, rot, before, x, y, vert, n, c)
  }

  lemma AgreesUnlessUnderflow(g: Geometry, rot: nat, x: int, y: int, vert: bool, n: int)
    requires g.Supported() && rot < 4 && IsI16(x) && IsI16(y) && IsI16(n)
    ensures Agrees(g, rot, x, y, vert, n) <==> !ClipUnderflows(g, rot, x, y, vert, n)
  {
    if ClipUnderflows(g, rot, x, y, vert, n) {
      var before: seq<Byte> := seq(g.Size(), _ => Octet(0));
      var f := Clipped(g, FastLine(g, rot, x, y, vert, n), n);
      var after := Inked(g, before, Inverse, f.0, f.1);
      assert FastDrawn(g, rot, before, after, x, y, vert, n, Inverse);
      UnderflowIsVisible(g, rot, before, after, x, y, vert, n);
    } else {
      forall before: seq<Byte>, after, c | |before| == g.Size() && FastDrawn(g, rot, before, after, x, y, vert, n, c)
        ensures after == PixelByPixel(g, rot, before, x, y, vert, n, c)
      {
        FastIsPixelByPixel(g, rot, before, after, x, y, vert, n, c);
      }
    }
  }

  /** A concrete member of the failing family: 32700 pixels to the left of nothing, upside down. */
  lemma UnderflowExample()
    ensures ClipUnderflows(Geometry(128, 64), 2, 0, 0, false, -32700)
  {
    assert I16(127 + 32701) == 32828 - 0x1_0000;
  }

  // ---------------------------------------------------------------- the driver

  /** The rows of a column that lie in one byte are drawn by painting that byte through their band. */
  lemma ColumnGrows(g: Geometry, start: seq<Byte>, mid: seq<Byte>, after: seq<Byte>, c: Color, x: nat, y: nat,
                    done: nat, n: nat, page: nat, lo: nat, mask: Byte)
    requires g.Supported() && |start| == g.Size() && x < g.w && y + done + n <= g.h && n > 0
    requires y + done == page * 8 + lo && lo + n <= 8 && mask == Band(lo, n)
    requires Drawn(g, start, mid, c, PanelLine(true, y, x), done) && 0 <= g.Index(page, x) < |mid|
    requires after == mid[g.Index(page, x) := Paint(mid[g.Index(page, x)], mask, c)]
    ensures Drawn(g, start, after, c, PanelLine(true, y, x), done + n)
  {
    var l := PanelLine(true, y, x);
    assert GainsMask(l, done, l, done + n, page, x, mask) by {
      forall k | 0 <= k < 8
        ensures mask[k] == (lo <= k < lo + n)
      {
        BandBit(lo, n, k);
      }
      hide Band;
    }
    assert SameElsewhere(g, l, done, l, done + n, page, x) by {
      forall p, q | g.OnPanel(p, q) && (p != x || q / 8 != page)
        ensures l.Has(done + n, p, q) == l.Has(done, p, q)
      {
        assert page * 8 <= q < page * 8 + 8 ==> q / 8 == page;
      }
    }
    assert 0 <= page < g.h / 8;
    hide Drawn, Paint, Band, GainsMask, SameElsewhere;
    DrawnGrows(g, start, mid, after, c, l, done, l, done + n, page, x, mask);
  }

  class Display {
    const g: Geometry
    const buffer: array<Byte>
    var rotation: nat

    ghost predicate Valid()
      reads this
    {
      g.Supported() && buffer.Length == g.Size() && rotation < 4
    }

    constructor (g: Geometry)
      requires g.Supported()
      ensures Valid() && this.g == g && rotation == 0 && fresh(buffer)
    {
      this.g := g;
      buffer := new Byte[g.Size()](_ => Octet(0));
      rotation := 0;
    }

    method SetRotation(x: nat)
      requires Valid()
      modifies this
      ensures Valid() && rotation == x % 4
    {
      rotation := x % 4;
    }

    method DrawPixel(x0: int, y0: int, color: Color)
      requires Valid() && IsI16(x0) && IsI16(y0)
      modifies buffer
      ensures buffer[..] == Plot(g, rotation, old(buffer[..]), x0, y0, color)
    {
      var x, y := x0, y0;
      if x < 0 || x >= Extent(g, rotation).0 || y < 0 || y >= Extent(g, rotation).1 {
        return;
      }
      match rotation {
        case 1 => x, y := y, x; x := g.w - x - 1;
        case 2 => x := g.w - x - 1; y := g.h - y - 1;
        case 3 => x, y := y, x; y := g.h - y - 1;
        case _ =>
      }
      assert Visible(g, rotation, x0, y0) && (x, y) == Rotate(g, rotation, x0, y0);
      PlotPaints(g, rotation, buffer[..], x0, y0, color);
      hide Paint, Band, Octet, Shl, Plot, Rotate, Visible, Extent;
      RowMaskIsBand(y % 8);
      PaintByte(x + (y / 8) * g.w, Shl(Octet(1), y % 8), color);
    }

    /** One switch on the colour. */
    method PaintByte(p: nat, mask: Byte, color: Color)
      requires p < buffer.Length
      modifies buffer
      ensures buffer[..] == old(buffer[..])[p := Paint(old(buffer[..])[p], mask, color)]
    {
      match color {
        case White => buffer[p] := Or(buffer[p], mask);
        case Black => buffer[p] := And(buffer[p], Not(mask));
        case Inverse => buffer[p] := Xor(buffer[p], mask);
      }
    }

    method DrawFastHLineInternal(x0: int, y: int, w0: int, color: Color)
      requires Valid() && IsI16(x0) && IsI16(y) && IsI16(w0)
      modifies buffer
      ensures var f := Clipped(g, PanelLine(false, x0, y), w0);
              Drawn(g, old(buffer[..]), buffer[..], color, f.0, f.1)
    {
      if y < 0 || y >= g.h {
        return;
      }
      var x, w := x0, w0;
      if x < 0 {
        w := I16(w + x);
        x := 0;
      }
      if x + w > g.w {
        w := g.w - x;
      }
      if w <= 0 {
        return;
      }
      DrawRow(x, y, w, color);
    }

    /** The part of drawFastHLineInternal after clipping. */
    method DrawRow(x: nat, y: nat, w0: nat, color: Color)
      requires Valid() && y < g.h && x + w0 <= g.w
      modifies buffer
      ensures Drawn(g, old(buffer[..]), buffer[..], color, PanelLine(false, x, y), w0)
    {
      ghost var start, l := buffer[..], PanelLine(false, x, y);
      var pBuf := (y / 8) * g.w + x;
      RowMaskIsBand(y % 8);
      var mask := Shl(Octet(1), y % 8);
      var w := w0;
      while w > 0
        invariant 0 <= w <= w0
        invariant pBuf == g.Index(y / 8, x + w0 - w)
        invariant Drawn(g, start, buffer[..], color, l, w0 - w)
      {
        ghost var mid := buffer[..];
        IndexInside(g, y / 8, x + w0 - w);
        PaintByte(pBuf, mask, color);
        BitDraws(g, start, mid, buffer[..], color, l, w0 - w, l, w0 - w + 1, (x + w0 - w, y));
        pBuf := pBuf + 1;
        w := w - 1;
      }
    }

    method DrawFastVLineInternal(x: int, y0: int, h0: int, color: Color)
      requires Valid() && IsI16(x) && IsI16(y0) && IsI16(h0)
      modifies buffer
      ensures var f := Clipped(g, PanelLine(true, y0, x), h0);
              Drawn(g, old(buffer[..]), buffer[..], color, f.0, f.1)
    {
      if x < 0 || x >= g.w {
        return;
      }
      var y, h := y0, h0;
      if y < 0 {
        h := I16(h + y);
        y := 0;
      }
      if y + h > g.h {
        h := g.h - y;
      }
      if h <= 0 {
        return;
      }
      DrawColumn(x, y, h, color);
    }

    /** The part of drawFastVLineInternal after clipping. */
    method DrawColumn(x: nat, y: nat, h0: nat, color: Color)
      requires Valid() && x < g.w && 0 < h0 && y + h0 <= g.h
      modifies buffer
      ensures Drawn(g, old(buffer[..]), buffer[..], color, PanelLine(true, y, x), h0)
    {
      ghost var start := buffer[..];
      ghost var page := y / 8;
      var h := h0;
      var pBuf := (y / 8) * g.w + x;
      var mod := y % 8;
      if mod != 0 {
        mod := 8 - mod;
        var mask := Octet(PREMASK[mod]);
        if h < mod {
          mask := And(mask, Shr(Octet(0xFF), mod - h));
        }
        FirstMaskIsBand(mod, h);
        ghost var n := if h < mod then h else mod;
        PaintColumnByte(start, x, y, 0, n, page, 8 - mod, mask, pBuf, color);
        if h < mod {
          return;
        }
        h := h - mod;
        NextPage(g, page, x);
        page := page + 1;
        pBuf := pBuf + g.w;
      }
      DrawWholeBytes(start, x, y, h0 - h, page, h, pBuf, color);
    }

    /** Write the n pixels of a column that lie in one byte. */
    method PaintColumnByte(ghost start: seq<Byte>, x: nat, ghost y: nat, ghost done: nat, ghost n: nat,
                           ghost page: nat, ghost lo: nat, mask: Byte, pBuf: nat, color: Color)
      requires Valid() && |start| == g.Size() && x < g.w && n > 0 && y + done + n <= g.h
      requires y + done == page * 8 + lo && lo + n <= 8 && mask == Band(lo, n)
      requires pBuf == g.Index(page, x)
      requires Drawn(g, start, buffer[..], color, PanelLine(true, y, x), done)
      modifies buffer
      ensures Drawn(g, start, buffer[..], color, PanelLine(true, y, x), done + n)
    {
      hide Drawn, Paint, Ink, Band;
      ghost var mid := buffer[..];
      IndexInside(g, page, x);
      PaintByte(pBuf, mask, color);
      ColumnGrows(g, start, mid, buffer[..], color, x, y, done, n, page, lo, mask);
    }

    /** The rest of a column from a byte boundary on: eight rows at a time and then the last part of a byte. */
    method DrawWholeBytes(ghost start: seq<Byte>, x: nat, ghost y: nat, ghost done0: nat, ghost page0: nat,
                          h0: nat, pBuf0: nat, color: Color)
      requires Valid() && |start| == g.Size()
      requires x < g.w && y + done0 + h0 <= g.h && y + done0 == page0 * 8
      requires pBuf0 == g.Index(page0, x)
      requires Drawn(g, start, buffer[..], color, PanelLine(true, y, x), done0)
      modifies buffer
      ensures Drawn(g, start, buffer[..], color, PanelLine(true, y, x), done0 + h0)
    {
      hide Drawn, Octet, Band, Geometry.Index;
      ghost var done: nat, page: nat := done0, page0;
      var h, pBuf: nat := h0, pBuf0;
      while h >= 8
        invariant 0 <= h && done + h == done0 + h0 && y + done == page * 8
        invariant pBuf == g.Index(page, x)
        invariant Drawn(g, start, buffer[..], color, PanelLine(true, y, x), done)
      {
        PaintSolidByte(start, x, y, done, page, pBuf, color);
        NextPage(g, page, x);
        pBuf := pBuf + g.w;
        h := h - 8;
        done, page := done + 8, page + 1;
      }
      if h != 0 {
        LastMaskIsBand(h);
        PaintColumnByte(start, x, y, done, h, page, 0, Octet(POSTMASK[h % 8]), pBuf, color);
      }
    }

    /** Write eight rows of a column at once. */
    method PaintSolidByte(ghost start: seq<Byte>, x: nat, ghost y: nat, ghost done: nat, ghost page: nat, pBuf: nat,
                          color: Color)
      requires Valid() && |start| == g.Size() && x < g.w && y + done + 8 <= g.h
      requires y + done == page * 8 && pBuf == g.Index(page, x)
      requires Drawn(g, start, buffer[..], color, PanelLine(true, y, x), done)
      modifies buffer
      ensures Drawn(g, start, buffer[..], color, PanelLine(true, y, x), done + 8)
    {
      ghost var mid := buffer[..];
      IndexInside(g, page, x);
      SolidBytes(buffer[pBuf], color);
      if color == Inverse {
        buffer[pBuf] := Not(buffer[pBuf]);
      } else {
        buffer[pBuf] := Octet(if color == White then 255 else 0);
      }
      hide Drawn, Paint, Ink, Band;
      ColumnGrows(g, start, mid, buffer[..], color, x, y, done, 8, page, 0, Band(0, 8));
    }

    /** The switch on the rotation in drawFastHLine. */
    method OrientHLine(x0: int, y0: int, w: int) returns (swap: bool, x: int, y: int)
      requires Valid() && IsI16(x0) && IsI16(y0) && IsI16(w)
      ensures IsI16(x) && IsI16(y)
      ensures FastLine(g, rotation, x0, y0, false, w) == if swap then PanelLine(true, y, x) else PanelLine(false, x, y)
    {
      hide I16;
      swap, x, y := false, x0, y0;
      match rotation {
        case 1 => swap := true; x, y := y, x; x := I16(g.w - x - 1);
        case 2 => x := I16(g.w - x - 1); y := I16(g.h - y - 1); x := I16(x - (w - 1));
        case 3 => swap := true; x, y := y, x; y := I16(g.h - y - 1); y := I16(y - (w - 1));
        case _ =>
      }
    }

    method DrawFastHLine(x0: int, y0: int, w: int, color: Color)
      requires Valid() && IsI16(x0) && IsI16(y0) && IsI16(w)
      modifies buffer
      ensures FastDrawn(g, rotation, old(buffer[..]), buffer[..], x0, y0, false, w, color)
      ensures !ClipUnderflows(g, rotation, x0, y0, false, w) ==>
                buffer[..] == PixelByPixel(g, rotation, old(buffer[..]), x0, y0, false, w, color)
    {
      var swap, x, y := OrientHLine(x0, y0, w);
      if swap {
        DrawFastVLineInternal(x, y, w, color);
      } else {
        DrawFastHLineInternal(x, y, w, color);
      }
      if !ClipUnderflows(g, rotation, x0, y0, false, w) {
        FastIsPixelByPixel(g, rotation, old(buffer[..]), buffer[..], x0, y0, false, w, color);
      }
    }

    /** The switch on the rotation in drawFastVLine. */
    method OrientVLine(x0: int, y0: int, h: int) returns (swap: bool, x: int, y: int)
      requires Valid() && IsI16(x0) && IsI16(y0) && IsI16(h)
      ensures IsI16(x) && IsI16(y)
      ensures FastLine(g, rotation, x0, y0, true, h) == if swap then PanelLine(false, x, y) else PanelLine(true, y, x)
    {
      hide I16;
      swap, x, y := false, x0, y0;
      match rotation {
        case 1 => swap := true; x, y := y, x; x := I16(g.w - x - 1); x := I16(x - (h - 1));
        case 2 => x := I16(g.w - x - 1); y := I16(g.h - y - 1); y := I16(y - (h - 1));
        case 3 => swap := true; x, y := y, x; y := I16(g.h - y - 1);
        case _ =>
      }
    }

    method DrawFastVLine(x0: int, y0: int, h: int, color: Color)
      requires Valid() && IsI16(x0) && IsI16(y0) && IsI16(h)
      modifies buffer
      ensures FastDrawn(g, rotation, old(buffer[..]), buffer[..], x0, y0, true, h, color)
      ensures !ClipUnderflows(g, rotation, x0, y0, true, h) ==>
                buffer[..] == PixelByPixel(g, rotation, old(buffer[..]), x0, y0, true, h, color)
    {
      var swap, x, y := OrientVLine(x0, y0, h);
      if swap {
        DrawFastHLineInternal(x, y, h, color);
      } else {
        DrawFastVLineInternal(x, y, h, color);
      }
      if !ClipUnderflows(g, rotation, x0, y0, true, h) {
        FastIsPixelByPixel(g, rotation, old(buffer[..]), buffer[..], x0, y0, true, h, color);
      }
    }
  }
}
