/** The software rasteriser: Bresenham lines and clipped rectangles, against
pointwise reference definitions. */
module Raster {
  import opened Arith
  import opened Common
  import opened Color
  import opened Region
  import opened RegionOps

  datatype Line = Line(x1: int, y1: int, x2: int, y2: int) {
    function Dx(): nat { if x2 >= x1 then x2 - x1 else x1 - x2 }
    function Dy(): nat { if y2 >= y1 then y2 - y1 else y1 - y2 }
    function Sx(): int { if x1 < x2 then 1 else -1 }
    function Sy(): int { if y1 < y2 then 1 else -1 }

    /** Steps from the start to the end along the longer axis. */
    function Length(): nat { if Dx() >= Dy() then Dx() else Dy() }

    /** How far a point lies from the start along the longer axis. */
    function Along(x: int, y: int): int {
      if Dx() >= Dy() then (x - x1) * Sx() else (y - y1) * Sy()
    }

    /** How far a point lies from the start along the shorter axis. */
    function Aside(x: int, y: int): int {
      if Dx() >= Dy() then (y - y1) * Sy() else (x - x1) * Sx()
    }

    function Rise(): nat { if Dx() >= Dy() then Dy() else Dx() }

    /** The line in pixels, without reference to any drawing loop: at every distance along
        the longer axis, the shorter-axis offset nearest to the ideal line
        `Along * Rise / Length`, the smaller offset when two are equally near. */
    ghost predicate Has(x: int, y: int) {
      && 0 <= Along(x, y) <= Length()
      && Nearest(Aside(x, y), Along(x, y) * Rise(), Length())
    }
  }

  /** `q` is `n / d` rounded to the nearest integer, halves downward. */
  ghost predicate Nearest(q: int, n: int, d: nat) {
    if d == 0 then q == 0 else 2 * n <= 2 * (q * d) + d && 2 * (q * d) < 2 * n + d
  }

  lemma NearestUnique(p: int, q: int, n: int, d: nat)
    requires Nearest(p, n, d) && Nearest(q, n, d)
    ensures p == q
  {
    if p < q {
      MulGap(p, q, d);
    } else if q < p {
      MulGap(q, p, d);
    }
  }

  /** One point of the line per step, and the last one is the requested end point. */
  lemma LineEnds(l: Line, x: int, y: int)
    ensures l.Has(l.x1, l.y1) && l.Along(l.x1, l.y1) == 0
    ensures l.Has(l.x2, l.y2) && l.Along(l.x2, l.y2) == l.Length()
    ensures l.Has(x, y) && l.Along(x, y) == l.Length() ==> x == l.x2 && y == l.y2
  {
    assert l.Along(l.x1, l.y1) == 0 && l.Aside(l.x1, l.y1) == 0;
    assert 0 * l.Rise() == 0;
    assert l.Along(l.x2, l.y2) == l.Length() && l.Aside(l.x2, l.y2) == l.Rise();
    assert l.Rise() * l.Length() == l.Length() * l.Rise();
    if l.Has(x, y) && l.Along(x, y) == l.Length() {
      NearestUnique(l.Aside(x, y), l.Rise(), l.Length() * l.Rise(), l.Length());
    }
  }

  lemma OnePointPerStep(l: Line, x: int, y: int, x': int, y': int)
    requires l.Has(x, y) && l.Has(x', y') && l.Along(x, y) == l.Along(x', y')
    ensures x == x' && y == y'
  {
    NearestUnique(l.Aside(x, y), l.Aside(x', y'), l.Along(x, y) * l.Rise(), l.Length());
  }

  // ----- one step of the loop

  /** The error term the loop carries, as a function of the current point. */
  ghost function Err(l: Line, x: int, y: int): int {
    l.Dx() - l.Dy() + (y - l.y1) * l.Sy() * l.Dx() - (x - l.x1) * l.Sx() * l.Dy()
  }

  /** The arithmetic of one step: the longer axis always advances, and the test on the
      shorter axis picks the offset nearest to the line at the next distance. */
  lemma StepArithmetic(len: nat, rise: nat, along: int, aside: int, e: int)
    requires rise <= len && 0 <= along < len
    requires Nearest(aside, along * rise, len)
    requires e == len - rise + aside * len - along * rise
    ensures 2 * e > 0 - rise
    ensures Nearest(if 2 * e < len then aside + 1 else aside, (along + 1) * rise, len)
  {
    assert (along + 1) * rise == along * rise + rise;
    assert (aside + 1) * len == aside * len + len;
    if rise == len && 2 * e <= 0 - rise {
      NearestUnique(aside, along, along * len, len);
    }
  }

  /** From any point of the line but the last, the two error tests advance the longer axis
      by one unit, land on the line again and keep the error term. */
  lemma StepStaysOnLine(l: Line, x: int, y: int, err: int, x': int, y': int, err': int)
    requires l.Has(x, y) && (x != l.x2 || y != l.y2) && err == Err(l, x, y)
    requires x' == if 2 * err > 0 - l.Dy() then x + l.Sx() else x
    requires y' == if 2 * err < l.Dx() then y + l.Sy() else y
    requires err' == err - (if 2 * err > 0 - l.Dy() then l.Dy() else 0) + (if 2 * err < l.Dx() then l.Dx() else 0)
    ensures l.Has(x', y') && l.Along(x', y') == l.Along(x, y) + 1 && err' == Err(l, x', y')
    ensures l.Aside(x, y) <= l.Aside(x', y') <= l.Aside(x, y) + 1
  {
    LineEnds(l, x, y);
    var along, aside := l.Along(x, y), l.Aside(x, y);
    var e := l.Length() - l.Rise() + aside * l.Length() - along * l.Rise();
    StepArithmetic(l.Length(), l.Rise(), along, aside, e);
    StepX(l, x, y);
    StepY(l, x, y);
    StepY(l, x', y);
    assert Err(l, x, y) == if l.Dx() >= l.Dy() then e else -e;
  }

  lemma StepX(l: Line, x: int, y: int)
    ensures (x + l.Sx() - l.x1) * l.Sx() == (x - l.x1) * l.Sx() + 1
    ensures Err(l, x + l.Sx(), y) == Err(l, x, y) - l.Dy()
  {
    var i := (x - l.x1) * l.Sx();
    assert (x + l.Sx() - l.x1) * l.Sx() == i + 1;
    assert (i + 1) * l.Dy() == i * l.Dy() + l.Dy();
  }

  lemma StepY(l: Line, x: int, y: int)
    ensures (y + l.Sy() - l.y1) * l.Sy() == (y - l.y1) * l.Sy() + 1
    ensures Err(l, x, y + l.Sy()) == Err(l, x, y) + l.Dx()
  {
    var j := (y - l.y1) * l.Sy();
    assert (y + l.Sy() - l.y1) * l.Sy() == j + 1;
    assert (j + 1) * l.Dx() == j * l.Dx() + l.Dx();
  }

  /** Twice the error term stays within three line lengths, so the loop's `i32`
      arithmetic is exact for lines of up to 715827882 pixels. */
  lemma ErrBounded(l: Line, x: int, y: int)
    requires l.Has(x, y)
    ensures 0 - 3 * l.Length() <= 2 * Err(l, x, y) <= 3 * l.Length()
  {
    var along, aside := l.Along(x, y), l.Aside(x, y);
    var e := l.Length() - l.Rise() + aside * l.Length() - along * l.Rise();
    assert Err(l, x, y) == if l.Dx() >= l.Dy() then e else -e;
  }

  // ----- bitmaps

  function Idx(w: nat, h: nat, x: int, y: int): (i: nat)
    requires 0 <= x < w && 0 <= y < h
    ensures i < w * h
  {
    MulGap(y, h, w);
    assert y * w >= 0;
    y * w + x
  }

  /** Pixels are stored row by row, each row from left to right. */
  lemma RowMajor(w: nat, h: nat, x: nat, y: nat)
    requires x < w && y < h
    ensures Idx(w, h, 0, 0) == 0
    ensures x + 1 < w ==> Idx(w, h, x + 1, y) == Idx(w, h, x, y) + 1
    ensures y + 1 < h ==> Idx(w, h, x, y + 1) == Idx(w, h, x, y) + w
  {
    assert (y + 1) * w == y * w + w;
    assert 0 * w == 0;
  }

  lemma IdxInjective(w: nat, h: nat, x: int, y: int, x': int, y': int)
    requires 0 <= x < w && 0 <= y < h && 0 <= x' < w && 0 <= y' < h
    requires Idx(w, h, x, y) == Idx(w, h, x', y')
    ensures x == x' && y == y'
  {
    if y < y' { MulGap(y, y', w); }
    if y' < y { MulGap(y', y, w); }
  }

  lemma FlatIndex(w: nat, h: nat, i: int)
    requires 0 <= i < w * h
    ensures w > 0 && 0 <= i % w < w && 0 <= i / w < h && Idx(w, h, i % w, i / w) == i
  {
    if w > 0 {
      assert i == i / w * w + i % w;
      if h <= i / w - 1 { MulGap(h, i / w, w); }
    }
  }

  /** Pixel buffers that agree at every coordinate are equal. */
  lemma SameEverywhere(w: nat, h: nat, a: seq<Argb>, b: seq<Argb>)
    requires |a| == |b| == w * h
    requires forall y: nat, x: nat | y < h && x < w :: a[Idx(w, h, x, y)] == b[Idx(w, h, x, y)]
    ensures a == b
  {
    forall i | 0 <= i < |a| ensures a[i] == b[i] {
      FlatIndex(w, h, i);
    }
  }

  predicate InBitmap(w: nat, h: nat, x: int, y: int) {
    0 <= x < w && 0 <= y < h
  }

  /** `now` is `was` with the part of the line nearer than `upto`, inside the clip, blended once. */
  ghost predicate LinePainted(was: seq<Argb>, now: seq<Argb>, w: nat, h: nat, l: Line, upto: int,
      clip: Option<seq<Rect>>,
                              color: Argb)
  {
    && |was| == |now| == w * h
    && forall x, y | InBitmap(w, h, x, y) ::
         now[Idx(w, h, x, y)] ==
         if l.Has(x, y) && l.Along(x, y) < upto && (clip.None? || Covers(clip.value, x, y))
         then BlendSourceOver(was[Idx(w, h, x, y)], color)
         else was[Idx(w, h, x, y)]
  }

  lemma PlotExtends(was: seq<Argb>, now: seq<Argb>, next: seq<Argb>, w: nat, h: nat, l: Line, x: int, y: int,
                    clip: Option<seq<Rect>>, color: Argb)
    requires l.Has(x, y) && LinePainted(was, now, w, h, l, l.Along(x, y), clip, color)
    requires next == if InBitmap(w, h, x, y) && (clip.None? || Covers(clip.value, x, y))
                     then now[Idx(w, h, x, y) := BlendSourceOver(now[Idx(w, h, x, y)], color)]
                     else now
    ensures LinePainted(was, next, w, h, l, l.Along(x, y) + 1, clip, color)
  {
    forall px, py | InBitmap(w, h, px, py)
      ensures next[Idx(w, h, px, py)] ==
              if l.Has(px, py) && l.Along(px, py) < l.Along(x, y) + 1 && (clip.None? || Covers(clip.value, px, py))
              then BlendSourceOver(was[Idx(w, h, px, py)], color)
              else was[Idx(w, h, px, py)]
    {
      if l.Has(px, py) && l.Along(px, py) == l.Along(x, y) {
        OnePointPerStep(l, x, y, px, py);
      } else if InBitmap(w, h, x, y) && Idx(w, h, px, py) == Idx(w, h, x, y) {
        IdxInjective(w, h, px, py, x, y);
      }
    }
  }

  /** Every pixel of the line that lies in the bitmap is blended exactly once, nothing else
      changes, and the loop takes exactly `Length` steps to the end point. */
  method DrawLine(pixels: array<Argb>, w: nat, h: nat, l: Line, color: Argb) returns (ghost steps: nat)
    requires pixels.Length == w * h
    modifies pixels
    ensures LinePainted(old(pixels[..]), pixels[..], w, h, l, l.Length() + 1, None, color)
    ensures steps == l.Length()
  {
    var x, y := l.x1, l.y1;
    var err := l.Dx() - l.Dy();
    steps := 0;
    LineEnds(l, x, y);
    while true
      invariant l.Has(x, y) && steps == l.Along(x, y) && err == Err(l, x, y)
      invariant LinePainted(old(pixels[..]), pixels[..], w, h, l, l.Along(x, y), None, color)
      decreases l.Length() - l.Along(x, y)
    {
      ghost var now := pixels[..];
      if 0 <= x < w && 0 <= y < h {
        var idx := Idx(w, h, x, y);
        pixels[idx] := BlendSourceOver(pixels[idx], color);
      }
      PlotExtends(old(pixels[..]), now, pixels[..], w, h, l, x, y, None, color);
      LineEnds(l, x, y);
      if x == l.x2 && y == l.y2 {
        break;
      }
      ghost var x0, y0, err0 := x, y, err;
      var e2 := 2 * err;
      if e2 > 0 - l.Dy() {
        err := err - l.Dy();
        x := x + l.Sx();
      }
      if e2 < l.Dx() {
        err := err + l.Dx();
        y := y + l.Sy();
      }
      StepStaysOnLine(l, x0, y0, err0, x, y, err);
      steps := steps + 1;
    }
  }

  /** The same walk; only pixels inside some clip rectangle are blended, once however many
      rectangles contain them. */
  method DrawLineClipped(pixels: array<Argb>, w: nat, h: nat, l: Line, color: Argb, clip: seq<Rect>)
    requires pixels.Length == w * h
    modifies pixels
    ensures LinePainted(old(pixels[..]), pixels[..], w, h, l, l.Length() + 1, Some(clip), color)
  {
    var x, y := l.x1, l.y1;
    var err := l.Dx() - l.Dy();
    LineEnds(l, x, y);
    while true
      invariant l.Has(x, y) && err == Err(l, x, y)
      invariant LinePainted(old(pixels[..]), pixels[..], w, h, l, l.Along(x, y), Some(clip), color)
      decreases l.Length() - l.Along(x, y)
    {
      ghost var now := pixels[..];
      if 0 <= x < w && 0 <= y < h && Covers(clip, x, y) {
        var idx := Idx(w, h, x, y);
        pixels[idx] := BlendSourceOver(pixels[idx], color);
      }
      PlotExtends(old(pixels[..]), now, pixels[..], w, h, l, x, y, Some(clip), color);
      LineEnds(l, x, y);
      if x == l.x2 && y == l.y2 {
        break;
      }
      ghost var x0, y0, err0 := x, y, err;
      var e2 := 2 * err;
      if e2 > 0 - l.Dy() {
        err := err - l.Dy();
        x := x + l.Sx();
      }
      if e2 < l.Dx() {
        err := err + l.Dx();
        y := y + l.Sy();
      }
      StepStaysOnLine(l, x0, y0, err0, x, y, err);
    }
  }

  // ----- rectangles

  function BlendTimes(dst: Argb, src: Argb, n: nat): Argb {
    if n == 0 then dst else BlendSourceOver(BlendTimes(dst, src, n - 1), src)
  }

  function Coverage(rects: seq<Rect>, x: int, y: int): nat {
    if rects == [] then 0
    else Coverage(rects[..|rects| - 1], x, y) + if InRect(rects[|rects| - 1], x, y) then 1 else 0
  }

  /** In an overlap-free clip every point counts once or not at all. */
  lemma {:induction false} DisjointCoverage(rects: seq<Rect>, x: int, y: int)
    ensures Coverage(rects, x, y) >= 1 <==> Covers(rects, x, y)
    ensures PairwiseDisjoint(rects) ==> Coverage(rects, x, y) == if Covers(rects, x, y) then 1 else 0
  {
    if rects != [] {
      var n := |rects| - 1;
      DisjointCoverage(rects[..n], x, y);
      CoversLast(rects, n, x, y);
      assert rects[..n + 1] == rects;
      if PairwiseDisjoint(rects) {
        PrefixDisjoint(rects, n);
        assert PairwiseDisjoint(rects[..n]);
      }
    }
  }

  /** Row by row, the pixels of `area` above row `y`, or left of `x` in row `y`, are blended. */
  ghost predicate FillReached(was: seq<Argb>, now: seq<Argb>, w: nat, h: nat, area: Rect, x: int, y: int, color: Argb) {
    && |was| == |now| == w * h
    && forall px, py | InBitmap(w, h, px, py) ::
         now[Idx(w, h, px, py)] ==
         if InRect(area, px, py) && (py < y || (py == y && px < x))
         then BlendSourceOver(was[Idx(w, h, px, py)], color)
         else was[Idx(w, h, px, py)]
  }

  /** The brush part of `draw_rect`: inside the rectangle and the bitmap, blended once. */
  method FillRect(pixels: array<Argb>, w: nat, h: nat, area: Rect, color: Argb)
    requires pixels.Length == w * h
    modifies pixels
    ensures forall x, y | InBitmap(w, h, x, y) ::
              pixels[Idx(w, h, x, y)] ==
              if InRect(area, x, y) then BlendSourceOver(old(pixels[..])[Idx(w, h, x, y)], color)
              else old(pixels[..])[Idx(w, h, x, y)]
  {
    var xStart, yStart := Max(area.left, 0), Max(area.top, 0);
    var xEnd, yEnd := Min(area.right, w), Min(area.bottom, h);
    var y := yStart;
    while y < yEnd
      invariant yStart <= y
      invariant FillReached(old(pixels[..]), pixels[..], w, h, area, xStart, y, color)
    {
      var x := xStart;
      while x < xEnd
        invariant xStart <= x
        invariant FillReached(old(pixels[..]), pixels[..], w, h, area, x, y, color)
      {
        ghost var now := pixels[..];
        var idx := Idx(w, h, x, y);
        pixels[idx] := BlendSourceOver(pixels[idx], color);
        forall px, py | InBitmap(w, h, px, py) && Idx(w, h, px, py) == idx ensures px == x && py == y {
          IdxInjective(w, h, px, py, x, y);
        }
        assert FillReached(old(pixels[..]), pixels[..], w, h, area, x + 1, y, color);
        x := x + 1;
      }
      y := y + 1;
    }
  }

  function TopEdge(area: Rect): Line { Line(area.left, area.top, area.right - 1, area.top) }
  function BottomEdge(area: Rect): Line { Line(area.left, area.bottom - 1, area.right - 1, area.bottom - 1) }
  function LeftEdge(area: Rect): Line { Line(area.left, area.top, area.left, area.bottom - 1) }
  function RightEdge(area: Rect): Line { Line(area.right - 1, area.top, area.right - 1, area.bottom - 1) }

  ghost function OnEdge(edge: Line, clip: seq<Rect>, x: int, y: int): nat {
    if edge.Has(x, y) && Covers(clip, x, y) then 1 else 0
  }

  ghost function EdgesThrough(area: Rect, clip: seq<Rect>, x: int, y: int): nat {
    OnEdge(TopEdge(area), clip, x, y) + OnEdge(BottomEdge(area), clip, x, y)
    + OnEdge(LeftEdge(area), clip, x, y) + OnEdge(RightEdge(area), clip, x, y)
  }

  /** What `draw_rect_clipped` leaves in one pixel: the brush once per clip rectangle around
      it, then the pen once per edge through it. */
  ghost function RectPixel(was: Argb, area: Rect, pen: Option<Argb>, brush: Option<Argb>, clip: seq<Rect>, x: int,
      y: int): Argb {
    var filled := if brush.Some? && InRect(area, x, y) then BlendTimes(was, brush.value, Coverage(clip, x, y)) else was;
    if pen.Some? then BlendTimes(filled, pen.value, EdgesThrough(area, clip, x, y)) else filled
  }

  // ----- where the outline runs

  function One(b: bool): nat { if b then 1 else 0 }

  /** A line along one axis has exactly the pixels between its ends. */
  lemma StraightLine(l: Line, x: int, y: int)
    ensures l.y1 == l.y2 && l.x1 <= l.x2 ==> (l.Has(x, y) <==> y == l.y1 && l.x1 <= x <= l.x2)
    ensures l.x1 == l.x2 && l.y1 <= l.y2 ==> (l.Has(x, y) <==> x == l.x1 && l.y1 <= y <= l.y2)
  {
    if l.Dx() == 0 || l.Dy() == 0 {
      assert l.Rise() == 0 && l.Along(x, y) * l.Rise() == 0;
      assert Nearest(0, 0, l.Length());
      if Nearest(l.Aside(x, y), 0, l.Length()) {
        NearestUnique(l.Aside(x, y), 0, 0, l.Length());
      }
    }
  }

  /** The outline is the border of the rectangle: inside it and inside the clip, a pixel is on
      as many edges as border rows and columns it lies in. */
  lemma OutlineIsBorder(area: Rect, clip: seq<Rect>, x: int, y: int)
    requires Nondegenerate(area)
    ensures EdgesThrough(area, clip, x, y) ==
            if InRect(area, x, y) && Covers(clip, x, y)
            then One(y == area.top) + One(y == area.bottom - 1) + One(x == area.left) + One(x == area.right - 1)
            else 0
  {
    StraightLine(TopEdge(area), x, y);
    StraightLine(BottomEdge(area), x, y);
    StraightLine(LeftEdge(area), x, y);
    StraightLine(RightEdge(area), x, y);
  }

  lemma {:induction false} SolidStays(dst: Argb, src: Argb, n: nat)
    requires src.a == 255 && n >= 1
    ensures BlendTimes(dst, src, n) == src
  {
    if n > 1 {
      SolidStays(dst, src, n - 1);
    }
  }

  /** With solid colours the border shows the pen and the rest of the clipped rectangle the
      brush, nothing else changes. */
  lemma SolidRect(was: Argb, area: Rect, pen: Argb, brush: Argb, clip: seq<Rect>, x: int, y: int)
    requires Nondegenerate(area) && pen.a == 255 && brush.a == 255
    ensures RectPixel(was, area, Some(pen), Some(brush), clip, x, y) ==
            if !(InRect(area, x, y) && Covers(clip, x, y)) then was
            else if y == area.top || y == area.bottom - 1 || x == area.left || x == area.right - 1 then pen
            else brush
  {
    OutlineIsBorder(area, clip, x, y);
    DisjointCoverage(clip, x, y);
    var n := EdgesThrough(area, clip, x, y);
    if InRect(area, x, y) && Covers(clip, x, y) {
      SolidStays(was, brush, Coverage(clip, x, y));
      if n > 0 {
        SolidStays(brush, pen, n);
      }
    }
  }

  /** Nothing is drawn outside the rectangle. */
  lemma OutsideRect(was: Argb, area: Rect, pen: Option<Argb>, brush: Option<Argb>, clip: seq<Rect>, x: int, y: int)
    requires Nondegenerate(area) && !(InRect(area, x, y) && Covers(clip, x, y))
    ensures RectPixel(was, area, pen, brush, clip, x, y) == was
  {
    OutlineIsBorder(area, clip, x, y);
    DisjointCoverage(clip, x, y);
  }

  method DrawRectClipped(pixels: array<Argb>, w: nat, h: nat, area: Rect, pen: Option<Argb>, brush: Option<Argb>,
      clip: seq<Rect>)
    requires pixels.Length == w * h
    modifies pixels
    ensures forall x, y | InBitmap(w, h, x, y) ::
              pixels[Idx(w, h, x, y)] == RectPixel(old(pixels[..])[Idx(w, h, x, y)], area, pen, brush, clip, x, y)
    ensures Nondegenerate(area) ==>
              forall x, y | InBitmap(w, h, x, y) :: !(InRect(area, x, y) && Covers(clip, x, y)) ==>
                pixels[Idx(w, h, x, y)] == old(pixels[..])[Idx(w, h, x, y)]
  {
    if brush.Some? {
      for k := 0 to |clip|
        invariant forall x, y | InBitmap(w, h, x, y) ::
                    pixels[Idx(w, h, x, y)] ==
                    if InRect(area, x, y) then BlendTimes(old(pixels[..])[Idx(w, h, x, y)], brush.value,
                        Coverage(clip[..k], x, y))
                    else old(pixels[..])[Idx(w, h, x, y)]
      {
        assert clip[..k + 1][..k] == clip[..k];
        var cut := Rect(Max(area.left, clip[k].left), Max(area.top, clip[k].top),
                        Min(area.right, clip[k].right), Min(area.bottom, clip[k].bottom));
        if cut.left < cut.right && cut.top < cut.bottom {
          FillRect(pixels, w, h, cut, brush.value);
        }
      }
      assert clip[..|clip|] == clip;
    }
    if pen.Some? {
      DrawOutline(pixels, w, h, area, pen.value, clip);
    }
    if Nondegenerate(area) {
      forall x, y | InBitmap(w, h, x, y) && !(InRect(area, x, y) && Covers(clip, x, y))
        ensures pixels[Idx(w, h, x, y)] == old(pixels[..])[Idx(w, h, x, y)]
      {
        OutsideRect(old(pixels[..])[Idx(w, h, x, y)], area, pen, brush, clip, x, y);
      }
    }
  }

  method DrawOutline(pixels: array<Argb>, w: nat, h: nat, area: Rect, color: Argb, clip: seq<Rect>)
    requires pixels.Length == w * h
    modifies pixels
    ensures forall x, y | InBitmap(w, h, x, y) ::
              pixels[Idx(w, h, x, y)] ==
                  BlendTimes(old(pixels[..])[Idx(w, h, x, y)], color, EdgesThrough(area, clip, x, y))
  {
    ghost var p0 := pixels[..];
    DrawEdge(pixels, w, h, TopEdge(area), color, clip);
    ghost var p1 := pixels[..];
    DrawEdge(pixels, w, h, BottomEdge(area), color, clip);
    ghost var p2 := pixels[..];
    DrawEdge(pixels, w, h, LeftEdge(area), color, clip);
    ghost var p3 := pixels[..];
    DrawEdge(pixels, w, h, RightEdge(area), color, clip);
    ghost var p4 := pixels[..];
    forall x, y | InBitmap(w, h, x, y)
      ensures p4[Idx(w, h, x, y)] == BlendTimes(p0[Idx(w, h, x, y)], color, EdgesThrough(area, clip, x, y))
    {
      BlendFour(p0[Idx(w, h, x, y)], p1[Idx(w, h, x, y)], p2[Idx(w, h, x, y)], p3[Idx(w, h, x, y)],
          p4[Idx(w, h, x, y)], color,
                OnEdge(TopEdge(area), clip, x, y), OnEdge(BottomEdge(area), clip, x, y),
                OnEdge(LeftEdge(area), clip, x, y), OnEdge(RightEdge(area), clip, x, y));
    }
  }

  lemma BlendFour(c0: Argb, c1: Argb, c2: Argb, c3: Argb, c4: Argb, color: Argb, n1: nat, n2: nat, n3: nat, n4: nat)
    requires c1 == BlendTimes(c0, color, n1) && c2 == BlendTimes(c1, color, n2)
    requires c3 == BlendTimes(c2, color, n3) && c4 == BlendTimes(c3, color, n4)
    ensures c4 == BlendTimes(c0, color, n1 + n2 + n3 + n4)
  {
    BlendSum(c0, color, n1, n2);
    BlendSum(c0, color, n1 + n2, n3);
    BlendSum(c0, color, n1 + n2 + n3, n4);
  }

  lemma {:induction false} BlendSum(dst: Argb, src: Argb, m: nat, n: nat)
    ensures BlendTimes(BlendTimes(dst, src, m), src, n) == BlendTimes(dst, src, m + n)
  {
    if n > 0 {
      BlendSum(dst, src, m, n - 1);
    }
  }

  method DrawEdge(pixels: array<Argb>, w: nat, h: nat, edge: Line, color: Argb, clip: seq<Rect>)
    requires pixels.Length == w * h
    modifies pixels
    ensures forall x, y | InBitmap(w, h, x, y) ::
              pixels[Idx(w, h, x, y)] == BlendTimes(old(pixels[..])[Idx(w, h, x, y)], color, OnEdge(edge, clip, x, y))
  {
    DrawLineClipped(pixels, w, h, edge, color, clip);
    assert forall x, y | InBitmap(w, h, x, y) && edge.Has(x, y) :: edge.Along(x, y) < edge.Length() + 1;
  }

  // ----- when a brush is applied once

  ghost predicate FillsOnce(area: Rect, clip: seq<Rect>) {
    forall was, brush, x, y ::
      RectPixel(was, area, None, Some(brush), clip, x, y) ==
      if InRect(area, x, y) && Covers(clip, x, y) then BlendSourceOver(was, brush) else was
  }

  /** A rectangle is filled once per pixel exactly when no pixel of it lies in two clip
      rectangles; the overlap-free regions of the object table always qualify. */
  lemma FillsOnceIff(area: Rect, clip: seq<Rect>)
    ensures FillsOnce(area, clip) <==> forall x, y :: InRect(area, x, y) ==> Coverage(clip, x, y) <= 1
    ensures PairwiseDisjoint(clip) ==> FillsOnce(area, clip)
  {
    forall x, y ensures Coverage(clip, x, y) >= 1 <==> Covers(clip, x, y)
                ensures PairwiseDisjoint(clip) ==> Coverage(clip, x, y) <= 1
    {
      DisjointCoverage(clip, x, y);
    }
    forall dst, src ensures BlendTimes(dst, src, 1) == BlendSourceOver(dst, src) {
      assert BlendTimes(dst, src, 0) == dst;
    }
    if FillsOnce(area, clip) {
      forall x, y | InRect(area, x, y) ensures Coverage(clip, x, y) <= 1 {
        var black, veil := Argb(255, 0, 0, 0), Argb(128, 255, 255, 255);
        assert RectPixel(black, area, None, Some(veil), clip, x, y) ==
               if InRect(area, x, y) && Covers(clip, x, y) then BlendSourceOver(black, veil) else black;
        if Coverage(clip, x, y) >= 2 {
          VeilTwice(Coverage(clip, x, y));
          assert false;
        }
      }
    }
  }

  /** A half-transparent white veil over black keeps brightening it. */
  lemma {:induction false} VeilTwice(n: nat)
    requires n >= 2
    ensures var once := BlendSourceOver(Argb(255, 0, 0, 0), Argb(128, 255, 255, 255)).r;
      var many := BlendTimes(Argb(255, 0, 0, 0), Argb(128, 255, 255, 255), n);
      many.a == 255 && many.r > once
  {
    var black, veil := Argb(255, 0, 0, 0), Argb(128, 255, 255, 255);
    var before := BlendTimes(black, veil, n - 1);
    if n == 2 {
      assert BlendTimes(black, veil, 0) == black;
      OpaqueStaysOpaque(black, veil);
      OpaqueChannel(255, 128, 0);
    } else {
      VeilTwice(n - 1);
    }
    OpaqueStaysOpaque(before, veil);
    OpaqueChannel(255, 128, before.r);
  }
}
