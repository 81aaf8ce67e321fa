/** Watermark placement, shared verbatim by both versions of the watermarking
    tool: a uniform scale that fits the watermark into a percentage of the
    source image, rounded sizes, and offsets rounded from a position percentage.
    Arithmetic is over `real`; percentages arrive already parsed. */
module Geometry {

  /** Dimensions of a decoded source image (a canvas may be 0 x 0). */
  datatype Size = Size(width: nat, height: nat)

  /** A watermark is drawn scaled, so its dimensions are divisors: positive. */
  type Pos = x: int | x > 0 witness 1

  datatype WatermarkSize = WatermarkSize(width: Pos, height: Pos)

  /** The drawn size of the watermark. */
  datatype Extent = Extent(w: int, h: int)

  /** Where and how large the watermark is drawn onto one source image. */
  datatype Placement = Placement(ox: int, oy: int, ow: int, oh: int)

  /** JavaScript `Math.round`: half-way cases go towards +infinity. */
  function Round(x: real): (r: int)
    ensures r as real - 0.5 <= x < r as real + 0.5
  {
    (x + 0.5).Floor
  }

  /** `parseFloat(x) / 100` with the string already parsed. */
  function ParsePercent(p: real): real
  {
    p / 100.0
  }

  function Min(a: real, b: real): real
  {
    if a <= b then a else b
  }

  /** The uniform scale `min(maxw / wmW, maxh / wmH)`. */
  function Scale(maxw: real, maxh: real, wm: WatermarkSize): real
  {
    Min(maxw / wm.width as real, maxh / wm.height as real)
  }

  /** The rounded size of the watermark drawn at `scale`. */
  function Scaled(scale: real, wm: WatermarkSize): Extent
  {
    Extent(Round(wm.width as real * scale), Round(wm.height as real * scale))
  }

  /** The rounded size of the watermark scaled into a `maxw` x `maxh` footprint. */
  function FitSize(maxw: real, maxh: real, wm: WatermarkSize): Extent
  {
    Scaled(Scale(maxw, maxh, wm), wm)
  }

  /** The offset along one axis with `room` pixels left free, at fraction `pos`. */
  function Offset(room: int, pos: real): int
  {
    Round(room as real * pos)
  }

  /** The footprint `extent * fraction` allowed along one axis. */
  function Footprint(extent: nat, fraction: real): real
  {
    extent as real * fraction
  }

  /** A drawn size `e` positioned on `src` at fractions `hpos`, `vpos` of the
      room left free. */
  function Position(src: Size, e: Extent, hpos: real, vpos: real): Placement
  {
    Placement(Offset(src.width - e.w, hpos), Offset(src.height - e.h, vpos), e.w, e.h)
  }

  /** The placement of a watermark of size `wm` on a `src` image, for
      width/height/hpos/vpos given as fractions (percent / 100). */
  function Place(src: Size, wm: WatermarkSize, width: real, height: real, hpos: real, vpos: real): Placement
  {
    Position(src, FitSize(Footprint(src.width, width), Footprint(src.height, height), wm), hpos, vpos)
  }

  /** The placement for percentages as the user writes them (50 means half). */
  function PlaceByPercent(src: Size, wm: WatermarkSize, width: real, height: real, hpos: real, vpos: real): Placement
  {
    Place(src, wm, ParsePercent(width), ParsePercent(height), ParsePercent(hpos), ParsePercent(vpos))
  }

  // ---------------------------------------------------------------------------
  // Properties of rounding

  lemma RoundMonotone(x: real, y: real)
    requires x <= y
    ensures Round(x) <= Round(y)
  {
  }

  lemma RoundOfInt(n: int)
    ensures Round(n as real) == n
  {
  }

  /** A value between two integers rounds to a value between them. */
  lemma RoundBetween(x: real, lo: int, hi: int)
    requires lo as real <= x <= hi as real
    ensures lo <= Round(x) <= hi
  {
    RoundMonotone(lo as real, x);
    RoundMonotone(x, hi as real);
    RoundOfInt(lo);
    RoundOfInt(hi);
  }

  // ---------------------------------------------------------------------------
  // Properties of the placement

  /** The scale is the smaller of the two ratios, so the scaled watermark is
      no wider than `maxw` and no taller than `maxh`, and it touches at least
      one of the two limits exactly. */
  lemma ScaleFits(maxw: real, maxh: real, wm: WatermarkSize)
    ensures wm.width as real * Scale(maxw, maxh, wm) <= maxw
    ensures wm.height as real * Scale(maxw, maxh, wm) <= maxh
    ensures wm.width as real * Scale(maxw, maxh, wm) == maxw || wm.height as real * Scale(maxw, maxh, wm) == maxh
  {
    var w, h := wm.width as real, wm.height as real;
    var s := Scale(maxw, maxh, wm);
    assert w * (maxw / w) == maxw;
    assert h * (maxh / h) == maxh;
    if maxw / w <= maxh / h {
      assert s == maxw / w;
      assert h * s <= h * (maxh / h);
    } else {
      assert s == maxh / h;
      assert w * s <= w * (maxw / w);
    }
  }

  /** Rounded sizes stay within the rounded footprint, and one is tight. */
  lemma FitWithinFootprint(maxw: real, maxh: real, wm: WatermarkSize)
    ensures FitSize(maxw, maxh, wm).w <= Round(maxw)
    ensures FitSize(maxw, maxh, wm).h <= Round(maxh)
    ensures FitSize(maxw, maxh, wm).w == Round(maxw) || FitSize(maxw, maxh, wm).h == Round(maxh)
  {
    var s := Scale(maxw, maxh, wm);
    ScaleFits(maxw, maxh, wm);
    RoundMonotone(wm.width as real * s, maxw);
    RoundMonotone(wm.height as real * s, maxh);
  }

  /** The placement's size obeys the footprint `src * width` x `src * height`. */
  lemma SizeWithinFootprint(src: Size, wm: WatermarkSize, width: real, height: real, hpos: real, vpos: real)
    ensures var p := Place(src, wm, width, height, hpos, vpos);
      && p.ow <= Round(Footprint(src.width, width))
      && p.oh <= Round(Footprint(src.height, height))
      && (p.ow == Round(Footprint(src.width, width)) || p.oh == Round(Footprint(src.height, height)))
  {
    FitWithinFootprint(Footprint(src.width, width), Footprint(src.height, height), wm);
  }

  /** In a footprint no larger than the image, the size is between 0 and the
      image's size. */
  lemma FitWithinImage(maxw: real, maxh: real, wm: WatermarkSize, w: nat, h: nat)
    requires 0.0 <= maxw <= w as real && 0.0 <= maxh <= h as real
    ensures 0 <= FitSize(maxw, maxh, wm).w <= w
    ensures 0 <= FitSize(maxw, maxh, wm).h <= h
  {
    var s := Scale(maxw, maxh, wm);
    assert 0.0 <= maxw / wm.width as real;
    assert 0.0 <= maxh / wm.height as real;
    assert 0.0 <= s;
    assert 0.0 <= wm.width as real * s && 0.0 <= wm.height as real * s;
    FitWithinFootprint(maxw, maxh, wm);
    RoundMonotone(0.0, wm.width as real * s);
    RoundMonotone(0.0, wm.height as real * s);
    RoundMonotone(maxw, w as real);
    RoundMonotone(maxh, h as real);
    RoundOfInt(0);
    RoundOfInt(w);
    RoundOfInt(h);
  }

  /** An offset for a position fraction in [0, 1] keeps the watermark within
      the free room along its axis. */
  lemma OffsetWithin(room: int, pos: real)
    requires 0 <= room && 0.0 <= pos <= 1.0
    ensures 0 <= Offset(room, pos) <= room
  {
    assert 0.0 <= room as real * pos <= room as real;
    RoundBetween(room as real * pos, 0, room);
  }

  lemma FractionOf(n: nat, f: real)
    requires 0.0 <= f <= 1.0
    ensures 0.0 <= Footprint(n, f) <= n as real
  {
    assert n as real * (1.0 - f) >= 0.0;
    assert n as real * f >= 0.0;
  }

  /** A watermark no larger than the image, placed at a fraction in [0, 1]
      of the free room, starts and ends inside the image along that axis. */
  lemma AxisInside(extent: nat, o: int, pos: real)
    requires 0 <= o <= extent && 0.0 <= pos <= 1.0
    ensures 0 <= Offset(extent - o, pos) && Offset(extent - o, pos) + o <= extent
  {
    OffsetWithin(extent - o, pos);
  }

  /** With width and height at most 100 % and both positions within [0, 100] %,
      the watermark lies entirely inside the source image. */
  lemma PlacementInside(src: Size, wm: WatermarkSize, width: real, height: real, hpos: real, vpos: real)
    requires 0.0 <= width <= 1.0 && 0.0 <= height <= 1.0
    requires 0.0 <= hpos <= 1.0 && 0.0 <= vpos <= 1.0
    ensures var p := Place(src, wm, width, height, hpos, vpos);
      && 0 <= p.ow && 0 <= p.oh
      && 0 <= p.ox && p.ox + p.ow <= src.width
      && 0 <= p.oy && p.oy + p.oh <= src.height
  {
    var maxw, maxh := Footprint(src.width, width), Footprint(src.height, height);
    FractionOf(src.width, width);
    FractionOf(src.height, height);
    FitWithinImage(maxw, maxh, wm, src.width, src.height);
    PositionInside(src, FitSize(maxw, maxh, wm), hpos, vpos);
  }

  /** A drawn size no larger than the image, positioned at fractions in
      [0, 1], stays inside the image. */
  lemma PositionInside(src: Size, e: Extent, hpos: real, vpos: real)
    requires 0 <= e.w <= src.width && 0 <= e.h <= src.height
    requires 0.0 <= hpos <= 1.0 && 0.0 <= vpos <= 1.0
    ensures var p := Position(src, e, hpos, vpos);
      && 0 <= p.ox && p.ox + p.ow <= src.width
      && 0 <= p.oy && p.oy + p.oh <= src.height
  {
    AxisInside(src.width, e.w, hpos);
    AxisInside(src.height, e.h, vpos);
  }

  /** Position 0 aligns left/top, 1 aligns right/bottom and 1/2 centres
      (up to the half pixel that `Math.round` resolves upwards). */
  lemma Alignment(room: int, pos: real)
    ensures pos == 0.0 ==> Offset(room, pos) == 0
    ensures pos == 1.0 ==> Offset(room, pos) == room
    ensures pos == 0.5 ==> 0 <= 2 * Offset(room, pos) - room <= 1
  {
    RoundOfInt(0);
    RoundOfInt(room);
  }

  /** The alignment guarantees for the placement itself: a horizontal
      position of 0 % puts the watermark at the left edge, 100 % at the right
      edge, 50 % in the middle, and likewise vertically. */
  lemma PlaceAligned(src: Size, wm: WatermarkSize, width: real, height: real, hpos: real, vpos: real)
    ensures var p := Place(src, wm, width, height, hpos, vpos);
      && (hpos == 0.0 ==> p.ox == 0)
      && (hpos == 1.0 ==> p.ox == src.width - p.ow)
      && (hpos == 0.5 ==> 0 <= 2 * p.ox - (src.width - p.ow) <= 1)
      && (vpos == 0.0 ==> p.oy == 0)
      && (vpos == 1.0 ==> p.oy == src.height - p.oh)
      && (vpos == 0.5 ==> 0 <= 2 * p.oy - (src.height - p.oh) <= 1)
  {
    var e := FitSize(Footprint(src.width, width), Footprint(src.height, height), wm);
    Alignment(src.width - e.w, hpos);
    Alignment(src.height - e.h, vpos);
  }

  /** `ow x oh` has the aspect ratio of a `w x h` watermark up to rounding:
      the cross products differ by at most half the watermark's perimeter. */
  ghost predicate AspectClose(ow: int, oh: int, w: real, h: real)
  {
    -(w + h) / 2.0 <= ow as real * h - oh as real * w <= (w + h) / 2.0
  }

  /** Rounding each side of the scaled watermark keeps its aspect ratio,
      whatever the scale. */
  lemma AspectPreserved(scale: real, wm: WatermarkSize)
    ensures AspectClose(Scaled(scale, wm).w, Scaled(scale, wm).h, wm.width as real, wm.height as real)
  {
    var e := Scaled(scale, wm);
    AspectOfRounded(e.w, e.h, wm.width as real, wm.height as real, scale);
  }

  lemma AspectOfRounded(ow: int, oh: int, w: real, h: real, s: real)
    requires ow == Round(w * s) && oh == Round(h * s)
    requires 0.0 < w && 0.0 < h
    ensures AspectClose(ow, oh, w, h)
  {
    CrossError(ow as real, oh as real, w, h, s);
  }

  /** If `a` and `b` are within half of `w * s` and `h * s`, then `a / b` is
      close to `w / h` in the cross-multiplied sense. */
  lemma CrossError(a: real, b: real, w: real, h: real, s: real)
    requires -0.5 <= a - w * s <= 0.5 && -0.5 <= b - h * s <= 0.5
    requires 0.0 < w && 0.0 < h
    ensures -(w + h) / 2.0 <= a * h - b * w <= (w + h) / 2.0
  {
    var ew, eh := a - w * s, b - h * s;
    assert a * h - b * w == ew * h - eh * w;
    BoundedProduct(ew, h);
    BoundedProduct(eh, w);
  }

  lemma BoundedProduct(e: real, k: real)
    requires -0.5 <= e <= 0.5 && 0.0 < k
    ensures -k / 2.0 <= e * k <= k / 2.0
  {
    assert e * k <= 0.5 * k;
    assert -0.5 * k <= e * k;
  }

  /** The worked example: a 1000 x 500 image, a 200 x 100 watermark, width and
      height 50 %, positions 100 % give a 500 x 250 watermark at (500, 250). */
  lemma WorkedExample()
    ensures PlaceByPercent(Size(1000, 500), WatermarkSize(200, 100), 50.0, 50.0, 100.0, 100.0)
         == Placement(500, 250, 500, 250)
  {
    var wm := WatermarkSize(200, 100);
    assert Scale(500.0, 250.0, wm) == 2.5;
    RoundOfInt(500);
    RoundOfInt(250);
  }
}
