/** The two independent letterbox computations: where clicks land (`input/input_transform.c`) and where the video is
    drawn (`render/video_renderer.c`). Exact arithmetic stands for the floating point of both. */
module Letterbox {
  import opened Bytes

  /** Window and video sizes both computations accept. */
  predicate Sized(winW: int, winH: int, devW: int, devH: int) {
    winW > 0 && winH > 0 && devW > 0 && devH > 0
  }

  function Aspect(w: int, h: int): real
    requires h > 0
  {
    w as real / h as real
  }

  // Where the video is drawn

  /** A rectangle in window pixels. */
  datatype Drawn = Drawn(x: real, y: real, w: real, h: real)

  /** The scale factors of `update_aspect_ratio_transform`. */
  function Scale(winW: int, winH: int, devW: int, devH: int): (real, real)
    requires Sized(winW, winH, devW, devH)
  {
    AspectPositive(winW, winH);
    AspectPositive(devW, devH);
    var src, dst := Aspect(devW, devH), Aspect(winW, winH);
    if src > dst then (1.0, dst / src) else if src < dst then (src / dst, 1.0) else (1.0, 1.0)
  }

  lemma AspectPositive(w: int, h: int)
    requires w > 0 && h > 0
    ensures Aspect(w, h) > 0.0 && Aspect(w, h) * h as real == w as real
  {
  }

  /** The centred quad, scaled. */
  function DrawnRect(winW: int, winH: int, devW: int, devH: int): Drawn
    requires Sized(winW, winH, devW, devH)
  {
    var (sx, sy) := Scale(winW, winH, devW, devH);
    var w, h := winW as real * sx, winH as real * sy;
    Drawn((winW as real - w) / 2.0, (winH as real - h) / 2.0, w, h)
  }

  // Where clicks land

  /** A rectangle of whole pixels. */
  datatype Rect = Rect(x: int, y: int, w: int, h: int)

  /** The render area of `input_transform_coords`; the casts cut off the fraction of a positive number. */
  function RenderRect(winW: int, winH: int, devW: int, devH: int): Rect
    requires Sized(winW, winH, devW, devH)
  {
    AspectPositive(devW, devH);
    var video, window := Aspect(devW, devH), Aspect(winW, winH);
    if window > video then
      var w := (winH as real * video).Floor;
      Rect((winW - w) / 2, 0, w, winH)
    else
      var h := (winW as real / video).Floor;
      Rect(0, (winH - h) / 2, winW, h)
  }

  function Clamp(v: int, hi: int): int {
    var low := if v < 0 then 0 else v;
    if low > hi then hi else low
  }

  /** One coordinate: relative to the render area, clamped, scaled to the device. */
  function Map(v: int, from: int, extent: int, dev: int): int
    requires extent > 0
  {
    Scaled(Clamp(v - from, extent), extent, dev)
  }

  function Scaled(rel: int, extent: int, dev: int): int
    requires extent > 0
  {
    (rel as real / extent as real * dev as real).Floor
  }

  // The two rectangles

  /** The drawn size in the pillarbox and in the letterbox case. */
  lemma DrawnSizes(winW: int, winH: int, devW: int, devH: int)
    requires Sized(winW, winH, devW, devH)
    ensures var d := DrawnRect(winW, winH, devW, devH);
            if Aspect(winW, winH) > Aspect(devW, devH)
            then d.w == winH as real * Aspect(devW, devH) < winW as real && d.h == winH as real
            else
              && Aspect(devW, devH) > 0.0 && d.w == winW as real
              && d.h == winW as real / Aspect(devW, devH) <= winH as real
  {
    var video, window := Aspect(devW, devH), Aspect(winW, winH);
    AspectPositive(winW, winH);
    AspectPositive(devW, devH);
    var w, h := winW as real, winH as real;
    if window > video {
      ScaledBy(w, window, video, h);
      MulLess(video, window, h);
    } else {
      ScaledRatio(h, window, video, w);
      DivideAtMost(w, video, window, h);
    }
  }

  /** If `a = p * b` then scaling `a` by `q / p` gives `q * b`. */
  lemma ScaledBy(a: real, p: real, q: real, b: real)
    requires p > 0.0 && a == p * b
    ensures a * (q / p) == b * q
  {
    var r := q / p;
    assert r * p == q;
    assert a * r == (p * b) * r == b * (r * p);
  }

  /** If `w = p * h` then scaling `h` by `p / q` gives `w / q`. */
  lemma ScaledRatio(h: real, p: real, q: real, w: real)
    requires q > 0.0 && w == p * h
    ensures h * (p / q) == w / q
  {
    var r := p / q;
    assert r * q == p;
    assert (h * r) * q == h * (r * q) == w;
  }

  lemma MulLess(a: real, b: real, k: real)
    requires a < b && k > 0.0
    ensures k * a < k * b
  {
  }

  lemma DivideAtMost(w: real, video: real, window: real, h: real)
    requires 0.0 < window <= video && w == window * h && h > 0.0
    ensures w / video <= h
  {
    var x := w / video;
    assert x * video == w;
    assert x > h ==> x * video > h * video;
    assert h * video >= h * window;
  }

  /** Both computations choose the same case, and the clickable rectangle is the drawn one cut to whole pixels:
      under a pixel smaller and at most half a pixel off in each direction. */
  lemma RectsAgree(winW: int, winH: int, devW: int, devH: int)
    requires Sized(winW, winH, devW, devH)
    ensures var r := RenderRect(winW, winH, devW, devH);
            var d := DrawnRect(winW, winH, devW, devH);
            && 0.0 <= d.w - r.w as real < 1.0 && 0.0 <= d.h - r.h as real < 1.0
            && -0.5 <= r.x as real - d.x <= 0.5 && -0.5 <= r.y as real - d.y <= 0.5
            && 0 <= r.x && 0 <= r.w && r.x + r.w <= winW && 0 <= r.y && 0 <= r.h && r.y + r.h <= winH
            && (d.w < winW as real ==> r.h == winH && d.h == winH as real)
            && (d.h < winH as real ==> r.w == winW && d.w == winW as real)
  {
    DrawnSizes(winW, winH, devW, devH);
    var d := DrawnRect(winW, winH, devW, devH);
    if Aspect(winW, winH) > Aspect(devW, devH) {
      CutAndCentre(winW, d.w);
    } else {
      NotNegative(winW, Aspect(devW, devH));
      CutAndCentre(winH, d.h);
    }
  }

  lemma NotNegative(w: int, aspect: real)
    requires w > 0 && aspect > 0.0
    ensures w as real / aspect >= 0.0
  {
  }

  /** Cutting a size to whole pixels and centring it with integer division. */
  lemma CutAndCentre(window: int, size: real)
    requires 0.0 <= size <= window as real
    ensures 0.0 <= size - size.Floor as real < 1.0 && 0 <= size.Floor <= window
    ensures var at := (window - size.Floor) / 2;
            0 <= at && at + size.Floor <= window && -0.5 <= at as real - (window as real - size) / 2.0 <= 0.5
  {
    var at := (window - size.Floor) / 2;
    assert 2 * at == window - size.Floor || 2 * at == window - size.Floor - 1;
  }

  /** The render area is nonempty exactly when the drawn rectangle is at least one pixel wide and high. */
  lemma RenderNonemptyIff(winW: int, winH: int, devW: int, devH: int)
    requires Sized(winW, winH, devW, devH)
    ensures var r := RenderRect(winW, winH, devW, devH);
            var d := DrawnRect(winW, winH, devW, devH);
            (r.w > 0 && r.h > 0) <==> (d.w >= 1.0 && d.h >= 1.0)
  {
    RectsAgree(winW, winH, devW, devH);
  }

  // The mapping

  lemma ClampShape(v: int, w: int, hi: int)
    requires hi >= 0
    ensures 0 <= Clamp(v, hi) <= hi
    ensures v <= w ==> Clamp(v, hi) <= Clamp(w, hi)
    ensures v <= 0 ==> Clamp(v, hi) == 0
    ensures v >= hi ==> Clamp(v, hi) == hi
  {
  }

  /** Scaling keeps order. */
  lemma ScaledMonotone(a: int, b: int, extent: int, dev: int)
    requires a <= b && extent > 0 && dev >= 0
    ensures Scaled(a, extent, dev) <= Scaled(b, extent, dev)
  {
    var e, d, x, y := extent as real, dev as real, a as real / extent as real, b as real / extent as real;
    assert x * e == a as real && y * e == b as real;
    assert x > y ==> x * e > y * e;
    assert (y - x) * d >= 0.0;
    assert x * d <= y * d;
  }

  /** Scaling sends the ends of the render area to the ends of the device. */
  lemma ScaledEnds(extent: int, dev: int)
    requires extent > 0
    ensures Scaled(0, extent, dev) == 0 && Scaled(extent, extent, dev) == dev
  {
    var e := extent as real;
    assert e / e == 1.0;
    assert 1.0 * dev as real == dev as real;
    assert 0.0 / e == 0.0;
  }

  /** Mapped coordinates lie on the device, keep the order of the window coordinates, and send the edges of the
      render area, and everything beyond them, to the edges of the device. */
  lemma MapFaithful(v: int, w: int, from: int, extent: int, dev: int)
    requires extent > 0 && dev >= 0
    ensures 0 <= Map(v, from, extent, dev) <= dev
    ensures v <= w ==> Map(v, from, extent, dev) <= Map(w, from, extent, dev)
    ensures v <= from ==> Map(v, from, extent, dev) == 0
    ensures v >= from + extent ==> Map(v, from, extent, dev) == dev
  {
    ClampShape(v - from, w - from, extent);
    ScaledEnds(extent, dev);
    ScaledMonotone(0, Clamp(v - from, extent), extent, dev);
    ScaledMonotone(Clamp(v - from, extent), extent, extent, dev);
    if v <= w {
      ScaledMonotone(Clamp(v - from, extent), Clamp(w - from, extent), extent, dev);
    }
  }

  /** Scaling is proportional, cut to whole pixels. */
  lemma ScaledProportional(rel: int, extent: int, dev: int)
    requires extent > 0 && rel >= 0 && dev >= 0
    ensures Scaled(rel, extent, dev) * extent <= rel * dev < (Scaled(rel, extent, dev) + 1) * extent
  {
    ScaledExact(rel, extent, dev);
    FloorTimes(rel as real / extent as real * dev as real, extent, rel * dev, Scaled(rel, extent, dev));
  }

  lemma ScaledExact(rel: int, extent: int, dev: int)
    requires extent > 0
    ensures rel as real / extent as real * dev as real * extent as real == (rel * dev) as real
  {
    var ratio, e, d := rel as real / extent as real, extent as real, dev as real;
    assert ratio * e == rel as real;
    Regroup(ratio, d, e);
    TimesInt(rel, dev);
  }

  lemma Regroup(a: real, b: real, c: real)
    ensures a * b * c == a * c * b
  {
  }

  lemma TimesInt(a: int, b: int)
    ensures (a * b) as real == a as real * b as real
  {
  }

  /** Whole pixels of `q`, where `q * n` is the whole number `p`. */
  lemma FloorTimes(q: real, n: int, p: int, s: int)
    requires n > 0 && q * n as real == p as real && s == q.Floor
    ensures s * n <= p < (s + 1) * n
  {
    var t := s + 1;
    assert s as real <= q < t as real;
    MulOrder(s as real, q, n as real);
    MulStrict(q, t as real, n as real);
    BackToInt(s, t, n, p);
  }

  lemma BackToInt(s: int, t: int, n: int, p: int)
    requires s as real * n as real <= p as real < t as real * n as real
    ensures s * n <= p < t * n
  {
    TimesInt(s, n);
    TimesInt(t, n);
    var low, high := s * n, t * n;
    assert low as real <= p as real < high as real;
  }

  lemma MulOrder(a: real, b: real, k: real)
    requires a <= b && k > 0.0
    ensures a * k <= b * k
  {
  }

  lemma MulStrict(a: real, b: real, k: real)
    requires a < b && k > 0.0
    ensures a * k < b * k
  {
  }

  /** The render area in whole numbers: in the wider window the video's height is the window's and its width is
      proportional, in the others the other way round; the slack is halved. */
  lemma RenderRectProportional(winW: int, winH: int, devW: int, devH: int)
    requires Sized(winW, winH, devW, devH)
    ensures var r := RenderRect(winW, winH, devW, devH);
            if winW * devH > devW * winH then
              && r.h == winH && r.y == 0 && r.x == (winW - r.w) / 2
              && r.w * devH <= winH * devW < (r.w + 1) * devH
            else
              && r.w == winW && r.x == 0 && r.y == (winH - r.h) / 2
              && r.h * devW <= winW * devH < (r.h + 1) * devW
  {
    AspectOrder(winW, winH, devW, devH);
    if winW * devH > devW * winH {
      FloorOfProduct(winH, devW, devH);
    } else {
      FloorOfQuotient(winW, devW, devH);
    }
  }

  lemma FloorOfProduct(h: int, devW: int, devH: int)
    requires devW > 0 && devH > 0
    ensures var w := (h as real * Aspect(devW, devH)).Floor; w * devH <= h * devW < (w + 1) * devH
  {
    var q := h as real * Aspect(devW, devH);
    AspectPositive(devW, devH);
    ProductExact(h as real, Aspect(devW, devH), devH as real, devW as real);
    TimesInt(h, devW);
    FloorTimes(q, devH, h * devW, q.Floor);
  }

  lemma ProductExact(h: real, video: real, k: real, w: real)
    requires video * k == w
    ensures h * video * k == h * w
  {
    assert h * video * k == h * (video * k);
  }

  lemma FloorOfQuotient(w: int, devW: int, devH: int)
    requires devW > 0 && devH > 0
    ensures Aspect(devW, devH) > 0.0
    ensures var h := (w as real / Aspect(devW, devH)).Floor; h * devW <= w * devH < (h + 1) * devW
  {
    var video := Aspect(devW, devH);
    AspectPositive(devW, devH);
    var q := w as real / video;
    QuotientExact(q, video, w as real, devH as real, devW as real);
    TimesInt(w, devH);
    FloorTimes(q, devW, w * devH, q.Floor);
  }

  lemma QuotientExact(q: real, video: real, w: real, k: real, d: real)
    requires video > 0.0 && q == w / video && video * k == d
    ensures q * d == w * k
  {
    assert q * video == w;
    assert q * d == q * (video * k) == q * video * k;
  }

  /** Comparing ratios is comparing products. */
  lemma AspectOrder(winW: int, winH: int, devW: int, devH: int)
    requires Sized(winW, winH, devW, devH)
    ensures Aspect(winW, winH) > Aspect(devW, devH) <==> winW * devH > devW * winH
  {
    var a, b, h, k := Aspect(winW, winH), Aspect(devW, devH), winH as real, devH as real;
    AspectPositive(winW, winH);
    AspectPositive(devW, devH);
    TimesInt(winW, devH);
    TimesInt(devW, winH);
    RatioOrder(a, b, h, k);
  }

  lemma RatioOrder(a: real, b: real, h: real, k: real)
    requires h > 0.0 && k > 0.0
    ensures a > b <==> a * h * k > b * k * h
  {
    var n := h * k;
    assert n > 0.0;
    assert a * h * k == a * n && b * k * h == b * n;
    assert a > b ==> a * n > b * n;
    assert a <= b ==> a * n <= b * n;
  }

  /** The drawn rectangle: it fills the window in one direction and is proportional in the other, centred. */
  lemma DrawnRectProportional(winW: int, winH: int, devW: int, devH: int)
    requires Sized(winW, winH, devW, devH)
    ensures var d := DrawnRect(winW, winH, devW, devH);
            && 2.0 * d.x + d.w == winW as real && 2.0 * d.y + d.h == winH as real
            && if winW * devH > devW * winH
               then d.h == winH as real && d.w * devH as real == winH as real * devW as real
               else d.w == winW as real && d.h * devW as real == winW as real * devH as real
  {
    AspectOrder(winW, winH, devW, devH);
    AspectPositive(devW, devH);
    DrawnSizes(winW, winH, devW, devH);
    var video := Aspect(devW, devH);
    if winW * devH > devW * winH {
      ProductExact(winH as real, video, devH as real, devW as real);
    } else {
      QuotientExact(winW as real / video, video, winW as real, devH as real, devW as real);
    }
  }

  /** `input_transform_coords`. None is the result of dividing 0 by the size of an empty render area. */
  method InputTransformCoords(winX: int, winY: int, winW: int, winH: int, devW: nat, devH: nat)
    returns (devX: Option<int>, devY: Option<int>)
    ensures !Sized(winW, winH, devW, devH) ==> devX == Some(0) && devY == Some(0)
    ensures Sized(winW, winH, devW, devH) ==>
              var r := RenderRect(winW, winH, devW, devH);
              && devX == (if r.w > 0 then Some(Map(winX, r.x, r.w, devW)) else None)
              && devY == (if r.h > 0 then Some(Map(winY, r.y, r.h, devH)) else None)
    ensures (devX.Some? ==> 0 <= devX.value <= devW) && (devY.Some? ==> 0 <= devY.value <= devH)
    ensures Sized(winW, winH, devW, devH) ==>
              var r := RenderRect(winW, winH, devW, devH);
              && (devX.Some? && 0 <= winX - r.x <= r.w ==>
                    devX.value * r.w <= (winX - r.x) * devW < (devX.value + 1) * r.w)
              && (devY.Some? && 0 <= winY - r.y <= r.h ==>
                    devY.value * r.h <= (winY - r.y) * devH < (devY.value + 1) * r.h)
  {
    if winW <= 0 || winH <= 0 || devW == 0 || devH == 0 {
      return Some(0), Some(0);
    }
    var render := RenderArea(winW, winH, devW, devH);
    RectsAgree(winW, winH, devW, devH);
    var relX, relY := winX - render.x, winY - render.y;
    if relX < 0 {
      relX := 0;
    }
    if relY < 0 {
      relY := 0;
    }
    if relX > render.w {
      relX := render.w;
    }
    if relY > render.h {
      relY := render.h;
    }
    devX, devY := None, None;
    if render.w > 0 {
      MapFaithful(winX, winX, render.x, render.w, devW);
      ScaledProportional(relX, render.w, devW);
      devX := Some(Scaled(relX, render.w, devW));
    }
    if render.h > 0 {
      MapFaithful(winY, winY, render.y, render.h, devH);
      ScaledProportional(relY, render.h, devH);
      devY := Some(Scaled(relY, render.h, devH));
    }
  }

  /** The first half of `input_transform_coords`. */
  method RenderArea(winW: int, winH: int, devW: int, devH: int) returns (r: Rect)
    requires Sized(winW, winH, devW, devH)
    ensures r == RenderRect(winW, winH, devW, devH)
  {
    AspectPositive(devW, devH);
    var videoAspect, windowAspect := Aspect(devW, devH), Aspect(winW, winH);
    var renderX, renderY := 0, 0;
    var renderW, renderH: int;
    if windowAspect > videoAspect {
      renderH := winH;
      renderW := (winH as real * videoAspect).Floor;
      renderX := (winW - renderW) / 2;
    } else {
      renderW := winW;
      renderH := (winW as real / videoAspect).Floor;
      renderY := (winH - renderH) / 2;
    }
    r := Rect(renderX, renderY, renderW, renderH);
  }
}
