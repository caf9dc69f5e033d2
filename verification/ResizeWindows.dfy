/** Which scanlines a vertical resampling step touches, over exact reals. */
module ResizeWindows {

  datatype Filter = Box | Triangle | CubicBSpline | CatmullRom | Mitchell

  function Support(filter: Filter, scale: real): real {
    match filter
    case Box => 0.5 + scale / 2.0
    case Triangle => 1.0
    case _ => 2.0
  }

  function Ceil(x: real): int { -(-x).Floor }

  predicate UseUpsampling(ratio: real) { ratio > 1.0 }

  function PixelWidth(filter: Filter, scale: real): int
    requires scale > 0.0
  {
    if UseUpsampling(scale) then Ceil(Support(filter, 1.0 / scale) * 2.0)
    else Ceil(Support(filter, scale) * 2.0 / scale)
  }

  function PixelMargin(filter: Filter, scale: real): int
    requires scale > 0.0
  {
    PixelWidth(filter, scale) / 2
  }

  function RingEntries(filter: Filter, scale: real): int
    requires scale > 0.0
  {
    PixelWidth(filter, scale) + 1
  }

  /** A window of scanlines, both ends included. */
  datatype Window = Window(first: int, last: int)

  /** The input scanlines that contribute to output scanline `n`. */
  function UpWindow(filter: Filter, scale: real, shift: real, n: int): Window
    requires scale > 1.0
  {
    var radius := Support(filter, 1.0 / scale) * scale;
    var center := n as real + 0.5;
    Window(((center - radius + shift) / scale + 0.5).Floor, ((center + radius + shift) / scale - 0.5).Floor)
  }

  /** The output scanlines that input scanline `n` contributes to. */
  function DownWindow(filter: Filter, scale: real, shift: real, n: int): Window
    requires 0.0 < scale <= 1.0
  {
    var radius := Support(filter, scale) / scale;
    var center := n as real + 0.5;
    Window((((center - radius) * scale - shift) + 0.5).Floor, (((center + radius) * scale - shift) - 0.5).Floor)
  }

  // ---------------------------------------------------------------- windows slide by at most one and fit the filter

  /** From one window to the next: non-empty, no larger than `size`, and both ends move by 0 or 1. */
  ghost predicate StepsTo(w: Window, w': Window, size: int) {
    && w.first <= w.last && w.last - w.first + 1 <= size
    && w.first <= w'.first <= w.first + 1 && w.last <= w'.last <= w.last + 1
  }

  /** The window of width `2 * reach` around `mid`. */
  function Around(mid: real, reach: real): Window { Window((mid - reach + 0.5).Floor, (mid + reach - 0.5).Floor) }

  lemma AroundSlides(mid: real, reach: real, step: real)
    requires 0.0 < step <= 1.0 && reach >= 0.5
    ensures StepsTo(Around(mid, reach), Around(mid + step, reach), Ceil(reach * 2.0))
  {
  }

  lemma DivDistributes(a: real, b: real, s: real)
    requires s > 0.0
    ensures (a - b * s) / s == a / s - b && (a + b * s) / s == a / s + b
  {
    var q := a / s;
    assert a == q * s;
    assert a - b * s == (q - b) * s && a + b * s == (q + b) * s;
    assert ((q - b) * s) / s == q - b && ((q + b) * s) / s == q + b;
  }

  lemma UpIsAround(filter: Filter, scale: real, shift: real, n: int)
    requires scale > 1.0
    ensures UpWindow(filter, scale, shift, n) == Around((n as real + 0.5 + shift) / scale, Support(filter, 1.0 / scale))
  {
    var center := n as real + 0.5 + shift;
    DivDistributes(center, Support(filter, 1.0 / scale), scale);
    var radius := Support(filter, 1.0 / scale) * scale;
    assert (n as real + 0.5 - radius + shift) / scale == (center - radius) / scale;
    assert (n as real + 0.5 + radius + shift) / scale == (center + radius) / scale;
  }

  lemma DownIsAround(filter: Filter, scale: real, shift: real, n: int, mid: real)
    requires 0.0 < scale <= 1.0 && mid == (n as real + 0.5) * scale - shift
    ensures DownWindow(filter, scale, shift, n) == Around(mid, Support(filter, scale))
  {
    var radius := Support(filter, scale) / scale;
    var center := n as real + 0.5;
    assert radius * scale == Support(filter, scale);
    assert (center - radius) * scale == center * scale - radius * scale;
    assert (center + radius) * scale == center * scale + radius * scale;
  }

  lemma RadiusGrows(r: real, scale: real)
    requires 0.0 < scale <= 1.0 && r >= 0.0
    ensures r / scale >= r
  {
    var q := r / scale;
    assert q * scale == r;
    assert q >= 0.0;
    assert q * (1.0 - scale) >= 0.0;
  }

  lemma CeilMonotone(a: real, b: real)
    requires a <= b
    ensures Ceil(a) <= Ceil(b)
  {
  }

  /** Upsampling: windows are non-empty, fit the ring with an entry to spare, and both ends move by 0 or 1. */
  lemma UpWindowSlides(filter: Filter, scale: real, shift: real, n: int)
    requires UseUpsampling(scale)
    ensures StepsTo(UpWindow(filter, scale, shift, n), UpWindow(filter, scale, shift, n + 1),
            RingEntries(filter, scale) - 1)
  {
    hide UpWindow, Around, StepsTo;
    UpIsAround(filter, scale, shift, n);
    UpIsAround(filter, scale, shift, n + 1);
    var center := n as real + 0.5 + shift;
    var step := 1.0 / scale;
    assert step * scale == 1.0;
    assert 0.0 < step <= 1.0;
    DivDistributes(center, step, scale);
    assert (n + 1) as real + 0.5 + shift == center + step * scale;
    AroundSlides(center / scale, Support(filter, step), step);
  }

  lemma StepsWiden(w: Window, w': Window, size: int, larger: int)
    requires StepsTo(w, w', size) && size <= larger
    ensures StepsTo(w, w', larger)
  {
  }

  lemma DownEntriesSuffice(filter: Filter, scale: real)
    requires 0.0 < scale <= 1.0
    ensures Ceil(Support(filter, scale) * 2.0) <= RingEntries(filter, scale) - 1
  {
    var reach := Support(filter, scale);
    RadiusGrows(reach * 2.0, scale);
    CeilMonotone(reach * 2.0, reach * 2.0 / scale);
  }

  /** Downsampling: the same, for the output windows of consecutive input scanlines. */
  lemma DownWindowSlides(filter: Filter, scale: real, shift: real, n: int)
    requires 0.0 < scale <= 1.0
    ensures StepsTo(DownWindow(filter, scale, shift, n), DownWindow(filter, scale, shift, n + 1),
            RingEntries(filter, scale) - 1)
  {
    hide Around, DownWindow, StepsTo;
    var mid, reach := (n as real + 0.5) * scale - shift, Support(filter, scale);
    var w, w' := Around(mid, reach), Around(mid + scale, reach);
    AroundSlides(mid, reach, scale);
    DownEntriesSuffice(filter, scale);
    StepsWiden(w, w', Ceil(reach * 2.0), RingEntries(filter, scale) - 1);
    DownIsAround(filter, scale, shift, n, mid);
    DownMidSteps(n as real + 0.5, scale);
    assert (n + 1) as real + 0.5 == (n as real + 0.5) + 1.0;
    DownIsAround(filter, scale, shift, n + 1, mid + scale);
  }

  lemma DownMidSteps(center: real, scale: real)
    ensures (center + 1.0) * scale == center * scale + scale
  {
  }

  // ---------------------------------------------------------------- regions of the input image

  lemma CompareProducts(a: real, b: real, c: real)
    requires c > 0.0
    ensures a * c <= b * c <==> a <= b
  {
  }

  function VerticalScale(inputH: int, outputH: int, t0: real, t1: real): real
    requires inputH > 0 && t0 < t1
  {
    (outputH as real / inputH as real) / (t1 - t0)
  }

  function VerticalShift(outputH: int, t0: real, t1: real): real
    requires t0 < t1
  {
    t0 * outputH as real / (t1 - t0)
  }

  lemma RegionSpan(inputH: int, outputH: int, t0: real, t1: real)
    requires inputH > 0 && outputH > 0 && 0.0 <= t0 < t1 <= 1.0
    ensures VerticalScale(inputH, outputH, t0, t1) > 0.0 && VerticalShift(outputH, t0, t1) >= 0.0
    ensures inputH as real * VerticalScale(inputH, outputH, t0, t1) - VerticalShift(outputH, t0, t1) >= outputH as real
  {
    var d, o, i := t1 - t0, outputH as real, inputH as real;
    var s, h := VerticalScale(inputH, outputH, t0, t1), VerticalShift(outputH, t0, t1);
    var q := o / i;
    assert q * i == o && s * d == q && h * d == t0 * o;
    CompareProducts(0.0, q, i);
    CompareProducts(0.0, s, d);
    CompareProducts(0.0, h, d);
    var span := i * s - h;
    assert span * d == i * (s * d) - h * d;
    assert i * (s * d) == o;
    assert span * d == o - t0 * o == (1.0 - t0) * o;
    CompareProducts(d, 1.0 - t0, o);
    CompareProducts(o, span, d);
  }

  lemma QuotientIs(a: real, b: real, q: real)
    requires b > 0.0 && q * b == a
    ensures a / b == q
  {
  }

  /** The upper edge of the output lies at `t0` of the input's height, and the lower one at `t1`. */
  lemma RegionIsPlaced(inputH: int, outputH: int, t0: real, t1: real)
    requires inputH > 0 && outputH > 0 && 0.0 <= t0 < t1 <= 1.0
    ensures var scale, shift := VerticalScale(inputH, outputH, t0, t1), VerticalShift(outputH, t0, t1);
            && scale > 0.0 && shift / scale == t0 * inputH as real
            && (outputH as real + shift) / scale == t1 * inputH as real
  {
    RegionSpan(inputH, outputH, t0, t1);
    var d, o, i := t1 - t0, outputH as real, inputH as real;
    var s, h := VerticalScale(inputH, outputH, t0, t1), VerticalShift(outputH, t0, t1);
    assert o / i * i == o && s * d == o / i && h * d == t0 * o;
    assert s * d * i == o;
    assert t0 * i * s * d == t0 * (s * d * i) == h * d;
    CancelFactor(t0 * i * s, h, d);
    assert t1 * i * s * d == t1 * (s * d * i) == d * o + t0 * o == (o + h) * d;
    CancelFactor(t1 * i * s, o + h, d);
    QuotientIs(h, s, t0 * i);
    QuotientIs(o + h, s, t1 * i);
  }

  lemma CancelFactor(a: real, b: real, c: real)
    requires c > 0.0 && a * c == b * c
    ensures a == b
  {
    CompareProducts(a, b, c);
    CompareProducts(b, a, c);
  }

  lemma EdgeMids(inputH: real, margin: real, scale: real)
    requires margin >= 0.0 && 0.0 < scale <= 1.0
    ensures (0.5 - margin) * scale <= 0.5
    ensures (inputH + margin - 0.5) * scale >= inputH * scale - 0.5
  {
    assert margin * scale >= 0.0;
    assert (0.5 - margin) * scale == 0.5 * scale - margin * scale;
    assert (inputH + margin - 0.5) * scale == inputH * scale + margin * scale - 0.5 * scale;
  }

  lemma FloorAtLeast(x: real, n: int)
    requires x >= n as real
    ensures x.Floor >= n
  {
  }

  lemma FirstReaches(filter: Filter, scale: real, shift: real, margin: int)
    requires 0.0 < scale <= 1.0 && shift >= 0.0 && margin >= 0
    ensures DownWindow(filter, scale, shift, -margin).first <= 0
  {
    DownIsAround(filter, scale, shift, -margin, ((-margin) as real + 0.5) * scale - shift);
    EdgeMids(0.0, margin as real, scale);
    assert (-margin) as real + 0.5 == 0.5 - margin as real;
  }

  lemma LastReaches(filter: Filter, scale: real, shift: real, margin: int, inputH: int, outputH: int)
    requires 0.0 < scale <= 1.0 && margin >= 0 && inputH as real * scale - shift >= outputH as real
    ensures DownWindow(filter, scale, shift, inputH + margin - 1).last >= outputH - 1
  {
    var last := inputH + margin - 1;
    DownIsAround(filter, scale, shift, last, (last as real + 0.5) * scale - shift);
    EdgeMids(inputH as real, margin as real, scale);
    assert last as real + 0.5 == inputH as real + margin as real - 0.5;
    FloorAtLeast((last as real + 0.5) * scale - shift + Support(filter, scale) - 0.5, outputH - 1);
  }

  lemma SpanReachesAllRows(filter: Filter, scale: real, shift: real, inputH: int, outputH: int)
    requires 0.0 < scale <= 1.0 && shift >= 0.0 && inputH as real * scale - shift >= outputH as real
    ensures var margin := PixelMargin(filter, scale);
            && margin >= 0
            && DownWindow(filter, scale, shift, -margin).first <= 0
            && DownWindow(filter, scale, shift, inputH + margin - 1).last >= outputH - 1
  {
    DownWindowSlides(filter, scale, shift, 0);
    var margin := PixelMargin(filter, scale);
    FirstReaches(filter, scale, shift, margin);
    LastReaches(filter, scale, shift, margin, inputH, outputH);
  }

  /**
   * For every region 0 <= t0 < t1 <= 1 of the image that is being shrunk, the first input scanline visited reaches
   * output row 0 or above, and the last one reaches the last output row or below.
   */
  lemma RegionReachesAllRows(filter: Filter, inputH: int, outputH: int, t0: real, t1: real)
    requires inputH > 0 && outputH > 0 && 0.0 <= t0 < t1 <= 1.0
    requires VerticalScale(inputH, outputH, t0, t1) <= 1.0
    ensures var scale, shift := VerticalScale(inputH, outputH, t0, t1), VerticalShift(outputH, t0, t1);
            && scale > 0.0
            && var margin := PixelMargin(filter, scale);
            && margin >= 0
            && DownWindow(filter, scale, shift, -margin).first <= 0
            && DownWindow(filter, scale, shift, inputH + margin - 1).last >= outputH - 1
  {
    RegionSpan(inputH, outputH, t0, t1);
    var scale, shift := VerticalScale(inputH, outputH, t0, t1), VerticalShift(outputH, t0, t1);
    SpanReachesAllRows(filter, scale, shift, inputH, outputH);
  }
}
