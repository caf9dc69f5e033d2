/** Which scanlines contribute to which, and what the two resampling loops make of them. */
module ResizeContributors {
  import opened ResizeWindows
  import opened ResizeKernels
  import opened ResizeRing

  // ---------------------------------------------------------------- enlarging

  lemma TotalStep(weight: int -> real, first: int, last: int)
    ensures Total(weight, first, last) == if first > last then 0.0 else weight(first) + Total(weight, first + 1, last)
  {
  }

  /** Evaluates the weights of a window in order, skipping the zeros in front. */
  method SkipLeadingZeros(w: Window, weight: int -> real) returns (first: int, group: seq<real>, total: real)
    requires w.first <= w.last
    ensures w.first <= first && first + |group| == w.last + 1 && (group != [] ==> group[0] != 0.0)
    ensures forall i :: w.first <= i < first ==> weight(i) == 0.0
    ensures forall i :: 0 <= i < |group| ==> group[i] == weight(first + i)
    ensures total == Total(weight, w.first, w.last)
  {
    hide Total;
    first, total, group := w.first, 0.0, [];
    while |group| <= w.last - first
      invariant w.first <= first && first + |group| <= w.last + 1 && (group != [] ==> group[0] != 0.0)
      invariant forall i :: w.first <= i < first ==> weight(i) == 0.0
      invariant forall i :: 0 <= i < |group| ==> group[i] == weight(first + i)
      invariant total + Total(weight, first + |group|, w.last) == Total(weight, w.first, w.last)
      decreases w.last - first - |group|
    {
      var coefficient := weight(first + |group|);
      TotalStep(weight, first + |group|, w.last);
      if group == [] && coefficient == 0.0 {
        first := first + 1;
      } else {
        group := group + [coefficient];
        total := total + coefficient;
      }
    }
    TotalStep(weight, w.last + 1, w.last);
  }

  /** Leaves out the zeros behind the last coefficient that is not zero. */
  method TrimEnd(first: int, last: int, group: seq<real>, ghost weight: int -> real) returns (range: Window)
    requires group != [] && last == first + |group| - 1
    requires forall i :: 0 <= i < |group| ==> group[i] == weight(first + i)
    requires exists i :: 0 <= i < |group| && group[i] != 0.0
    ensures range.first == first <= range.last <= last && weight(range.last) != 0.0
    ensures forall i :: range.last < i <= last ==> weight(i) == 0.0
  {
    var n1, i := last, |group| - 1;
    while i >= 0 && group[i] == 0.0
      invariant -1 <= i < |group| && n1 == first + i
      invariant forall j :: i < j < |group| ==> group[j] == 0.0
    {
      n1 := first + i - 1;
      i := i - 1;
    }
    forall j | n1 < j <= last ensures weight(j) == 0.0 {
      assert group[j - first] == 0.0;
    }
    assert i >= 0 && group[i] == weight(n1);
    range := Window(first, n1);
  }

  lemma {:induction false} TotalOfZeros(weight: int -> real, first: int, last: int)
    requires forall i :: first <= i <= last ==> weight(i) == 0.0
    ensures Total(weight, first, last) == 0.0
    decreases last - first
  {
    if first <= last { TotalOfZeros(weight, first + 1, last); }
  }

  lemma UpWeightsInWindow(filter: Filter, scale: real, shift: real, n: int)
    requires UseUpsampling(scale)
    ensures var w := UpWindow(filter, scale, shift, n);
            w.first <= w.last && forall i :: UpWeight(filter, scale, shift, n)(i) != 0.0 ==> w.first <= i <= w.last
  {
    UpWindowSlides(filter, scale, shift, n);
    forall i | UpWeight(filter, scale, shift, n)(i) != 0.0
      ensures UpWindow(filter, scale, shift, n).first <= i <= UpWindow(filter, scale, shift, n).last
    {
      UpWindowIsExact(filter, scale, shift, n, i, 0.0);
    }
  }

  /** Scales the coefficients to a sum of one. That they sum to about one is asserted; over reals they do so exactly. */
  method Normalise(group: seq<real>, total: real) returns (normal: seq<real>)
    requires total == 1.0
    ensures normal == group
  {
    assert 0.9 < total < 1.1;
    var factor := 1.0 / total;
    assert factor == 1.0;
    normal := seq(|group|, i requires 0 <= i < |group| => group[i] * factor);
  }

  /** The contributors of a window: the scanlines from the first to the last with a weight, and these weights. */
  method Contribute(w: Window, weight: int -> real) returns (range: Window, group: seq<real>)
    requires w.first <= w.last && Total(weight, w.first, w.last) == 1.0
    requires forall i :: weight(i) != 0.0 ==> w.first <= i <= w.last
    ensures IsExtent(range, weight) && |group| > range.last - range.first
    ensures forall i :: range.first <= i <= range.last ==> group[i - range.first] == weight(i)
  {
    var first, total;
    first, group, total := SkipLeadingZeros(w, weight);
    group := Normalise(group, total);
    if group == [] { TotalOfZeros(weight, w.first, w.last); }
    range := TrimEnd(first, w.last, group, weight);
  }

  /** The contributors of output row `n`. */
  method UpContributors(filter: Filter, scale: real, shift: real, n: int) returns (range: Window, group: seq<real>)
    requires UseUpsampling(scale)
    ensures IsExtent(range, UpWeight(filter, scale, shift, n)) && |group| > range.last - range.first
    ensures forall i :: range.first <= i <= range.last ==>
              group[i - range.first] == UpWeight(filter, scale, shift, n)(i)
  {
    WeightsSumToOne(filter, scale, shift, n);
    UpWeightsInWindow(filter, scale, shift, n);
    hide *;
    range, group := Contribute(UpWindow(filter, scale, shift, n), UpWeight(filter, scale, shift, n));
  }

  /**
   * Enlarging: every output row is made of exactly the scanlines from the first to the last that have a weight in it,
   * in order, each decoded and found in the ring.
   */
  method Enlarge<T>(filter: Filter, scale: real, shift: real, outputH: nat, decode: int -> T, zero: T)
    returns (rows: seq<seq<T>>, ranges: Contributors)
    requires UseUpsampling(scale)
    ensures |rows| == |ranges| == outputH
    ensures forall y :: 0 <= y < outputH ==>
              IsExtent(ranges[y], UpWeight(filter, scale, shift, y)) && rows[y] == Sources(ranges[y], decode)
  {
    hide UpWindow, UpWeight;
    ranges := [];
    for n := 0 to outputH
      invariant |ranges| == n
      invariant forall y :: 0 <= y < n ==> IsExtent(ranges[y], UpWeight(filter, scale, shift, y))
      invariant forall y :: 0 <= y < n ==> Within(ranges[y], UpWindow(filter, scale, shift, y))
    {
      var range, _ := UpContributors(filter, scale, shift, n);
      UpWeightsInWindow(filter, scale, shift, n);
      ranges := ranges + [range];
    }
    rows := BufferLoopUpsample(filter, scale, shift, outputH, ranges, decode, zero);
  }

  // ---------------------------------------------------------------- shrinking

  /** Skips the zeros before the first coefficient that is not zero. */
  method SkipZeros(range: Window, weight: int -> real) returns (first: int)
    requires range.first <= range.last && weight(range.last) != 0.0
    ensures range.first <= first <= range.last && weight(first) != 0.0
    ensures forall i :: range.first <= i < first ==> weight(i) == 0.0
  {
    first := range.first;
    while weight(first) == 0.0
      invariant range.first <= first <= range.last && forall i :: range.first <= i < first ==> weight(i) == 0.0
      decreases range.last - first
    {
      first := first + 1;
    }
  }

  lemma DownWeightsInWindow(filter: Filter, scale: real, shift: real, n: int)
    requires 0.0 < scale <= 1.0
    ensures var w := DownWindow(filter, scale, shift, n);
            w.first <= w.last && forall r :: DownWeight(filter, scale, shift, n)(r) != 0.0 ==> w.first <= r <= w.last
  {
    DownWindowSlides(filter, scale, shift, n);
    forall r | DownWeight(filter, scale, shift, n)(r) != 0.0
      ensures DownWindow(filter, scale, shift, n).first <= r <= DownWindow(filter, scale, shift, n).last
    {
      DownWindowIsExact(filter, scale, shift, n, r, 0.0);
    }
  }

  /** The part of a range that lies in the image. */
  function Clamped(range: Window, outputH: int): Window { Window(Max(range.first, 0), Min(range.last, outputH - 1)) }

  /** The rows of a window from the first to the last with a weight. */
  method FindExtent(w: Window, weight: int -> real) returns (extent: Window)
    requires forall r :: weight(r) != 0.0 ==> w.first <= r <= w.last
    requires exists r :: w.first <= r <= w.last && weight(r) != 0.0
    ensures IsExtent(extent, weight) && Within(extent, w)
  {
    var group := [];
    for i := 0 to w.last - w.first + 1
      invariant |group| == i && forall j :: 0 <= j < i ==> group[j] == weight(w.first + j)
    {
      group := group + [weight(w.first + i)];
    }
    assert exists i :: 0 <= i < |group| && group[i] != 0.0 by {
      var r :| w.first <= r <= w.last && weight(r) != 0.0;
      assert group[r - w.first] != 0.0;
    }
    extent := TrimEnd(w.first, w.last, group, weight);
    var first := SkipZeros(extent, weight);
    extent := Window(first, extent.last);
  }

  /** The rows of the image from the first to the last in which input scanline `n` has a weight. */
  ghost predicate IsClamped(range: Window, filter: Filter, scale: real, shift: real, n: int, outputH: int)
    requires 0.0 < scale <= 1.0
  {
    exists extent ::
      && IsExtent(extent, DownWeight(filter, scale, shift, n))
      && Within(extent, DownWindow(filter, scale, shift, n)) && range == Clamped(extent, outputH)
  }

  method DownContributors(filter: Filter, scale: real, shift: real, n: int, outputH: int)
    returns (range: Window)
    requires 0.0 < scale <= 1.0
    ensures IsClamped(range, filter, scale, shift, n, outputH)
  {
    DownWeightExists(filter, scale, shift, n);
    DownWeightsInWindow(filter, scale, shift, n);
    hide DownWindow, DownWeight, IsExtent;
    var extent := FindExtent(DownWindow(filter, scale, shift, n), DownWeight(filter, scale, shift, n));
    var first := extent.first;
    while first < 0
      invariant first == extent.first || extent.first <= first <= 0
    {
      first := first + 1;
    }
    range := Window(first, Min(extent.last, outputH - 1));
    assert range == Clamped(extent, outputH);
  }

  /** A row lies between rows, or at rows, in which a scanline has a weight. */
  ghost predicate Spanned(weight: int -> real, r: int) {
    exists a, b :: a <= r <= b && weight(a) != 0.0 && weight(b) != 0.0
  }

  lemma ExtentIsSpanned(extent: Window, weight: int -> real, r: int)
    requires IsExtent(extent, weight)
    ensures extent.first <= r <= extent.last <==> Spanned(weight, r)
  {
  }

  /** Input scanline `y` contributes to row `k`. */
  predicate Contributes(ranges: Contributors, margin: int, y: int, k: int) {
    0 <= y + margin < |ranges| && ranges[y + margin].first <= k <= ranges[y + margin].last
  }

  predicate Increasing(s: seq<int>) { forall i, j :: 0 <= i < j < |s| ==> s[i] < s[j] }

  /** What feeds a row are the scanlines that contribute to it, each once and in order. */
  lemma {:induction false} FeedingIs(ranges: Contributors, margin: int, lo: int, hi: int, k: int)
    requires 0 <= lo + margin && hi + margin <= |ranges|
    ensures Increasing(Feeding(ranges, margin, lo, hi, k))
    ensures forall y :: y in Feeding(ranges, margin, lo, hi, k) <==> lo <= y < hi && Contributes(ranges, margin, y, k)
    decreases hi - lo
  {
    if lo < hi {
      FeedingIs(ranges, margin, lo, hi - 1, k);
      var f, f' := Feeding(ranges, margin, lo, hi - 1, k), Feeding(ranges, margin, lo, hi, k);
      var more := if Contributes(ranges, margin, hi - 1, k) then [hi - 1] else [];
      assert f' == f + more;
      assert forall i :: 0 <= i < |f| ==> f[i] in f;
      assert forall y :: y in f' <==> y in f || y in more;
    }
  }

  /** A row that a scanline's weights span is nearer to it than the kernel reaches. */
  lemma SpannedIsNear(filter: Filter, scale: real, shift: real, y: int, r: int)
    requires 0.0 < scale <= 1.0 && Spanned(DownWeight(filter, scale, shift, y), r)
    ensures Abs(r as real + 0.5 - ((y as real + 0.5) * scale - shift)) < Support(filter, scale)
  {
    var weight := DownWeight(filter, scale, shift, y);
    var a, b :| a <= r <= b && weight(a) != 0.0 && weight(b) != 0.0;
    SupportIsLeast(filter, scale, Support(filter, scale));
    hide Kernel;
  }

  lemma MarginCoversReach(filter: Filter, scale: real)
    requires 0.0 < scale <= 1.0
    ensures PixelMargin(filter, scale) >= 0
    ensures (PixelMargin(filter, scale) as real + 0.5) * scale >= Support(filter, scale)
  {
    DownEntriesSuffice(filter, scale);
    var reach, margin := Support(filter, scale) * 2.0 / scale, PixelMargin(filter, scale);
    assert reach * scale == Support(filter, scale) * 2.0;
    assert reach <= PixelWidth(filter, scale) as real <= margin as real * 2.0 + 1.0;
    ProductIsNotNegative(margin as real * 2.0 + 1.0 - reach, scale);
    assert (margin as real + 0.5) * scale == (margin as real * 2.0 + 1.0) * scale / 2.0;
  }

  lemma PositiveFactor(n: int, scale: real)
    requires scale > 0.0 && n as real * scale > 0.0
    ensures n > 0
  {
  }

  lemma ProductDistributes(a: real, b: real, scale: real)
    ensures (a + b) * scale == a * scale + b * scale && (a - b) * scale == a * scale - b * scale
  {
  }

  lemma InMargins(y: int, margin: int, inputH: int, scale: real, row: real, shift: real, reach: real)
    requires 0.0 < scale && 0.0 <= shift && 0.5 <= row && row + 0.5 + shift <= inputH as real * scale
    requires (margin as real + 0.5) * scale >= reach && Abs(row - ((y as real + 0.5) * scale - shift)) < reach
    ensures -margin <= y < inputH + margin
  {
    var near, m := (y as real + 0.5) * scale, (margin as real + 0.5) * scale;
    ProductDistributes(y as real + 0.5, margin as real + 0.5, scale);
    assert (y + margin + 1) as real == y as real + 0.5 + (margin as real + 0.5);
    PositiveFactor(y + margin + 1, scale);
    ProductDistributes(inputH as real, margin as real + 0.5, scale);
    ProductDistributes(inputH as real + (margin as real + 0.5), y as real + 0.5, scale);
    assert (inputH + margin - y) as real == inputH as real + (margin as real + 0.5) - (y as real + 0.5);
    PositiveFactor(inputH + margin - y, scale);
  }

  /** The margins are wide enough: no weights of a scanline beyond them span a row of the image. */
  lemma MarginsSuffice(filter: Filter, inputH: int, outputH: int, t0: real, t1: real, y: int, r: int)
    requires inputH > 0 && 0 <= r < outputH && 0.0 <= t0 < t1 <= 1.0
    requires 0.0 < VerticalScale(inputH, outputH, t0, t1) <= 1.0
    requires Spanned(DownWeight(filter, VerticalScale(inputH, outputH, t0, t1), VerticalShift(outputH, t0, t1), y), r)
    ensures var margin := PixelMargin(filter, VerticalScale(inputH, outputH, t0, t1)); -margin <= y < inputH + margin
  {
    hide *;
    var scale, shift := VerticalScale(inputH, outputH, t0, t1), VerticalShift(outputH, t0, t1);
    var margin := PixelMargin(filter, scale);
    RegionSpan(inputH, outputH, t0, t1);
    SpannedIsNear(filter, scale, shift, y, r);
    MarginCoversReach(filter, scale);
    InMargins(y, margin, inputH, scale, r as real + 0.5, shift, Support(filter, scale));
  }

  /** The contributors of input scanlines `-margin..`. */
  ghost predicate AreClamped(ranges: Contributors, filter: Filter, scale: real, shift: real, margin: int, outputH: int)
    requires 0.0 < scale <= 1.0
  {
    forall j :: 0 <= j < |ranges| ==> IsClamped(ranges[j], filter, scale, shift, j - margin, outputH)
  }

  lemma ClampedFeed(ranges: Contributors, filter: Filter, scale: real, shift: real, margin: int, outputH: int)
    requires 0.0 < scale <= 1.0 && AreClamped(ranges, filter, scale, shift, margin, outputH)
    ensures Feeds(ranges, margin, n => DownWindow(filter, scale, shift, n), outputH)
  {
    forall j | 0 <= j < |ranges|
      ensures Within(ranges[j], DownWindow(filter, scale, shift, j - margin))
              && Within(ranges[j], Window(0, outputH - 1))
    {
      assert IsClamped(ranges[j], filter, scale, shift, j - margin, outputH);
    }
  }

  lemma ContributesIff(ranges: Contributors, filter: Filter, scale: real, shift: real, margin: int, outputH: int,
          y: int, r: int)
    requires 0.0 < scale <= 1.0 && AreClamped(ranges, filter, scale, shift, margin, outputH)
    requires 0 <= r < outputH && 0 <= y + margin < |ranges|
    ensures Contributes(ranges, margin, y, r) <==> Spanned(DownWeight(filter, scale, shift, y), r)
  {
    assert IsClamped(ranges[y + margin], filter, scale, shift, y + margin - margin, outputH);
    var extent :| IsExtent(extent, DownWeight(filter, scale, shift, y))
                  && ranges[y + margin] == Clamped(extent, outputH);
    ExtentIsSpanned(extent, DownWeight(filter, scale, shift, y), r);
  }

  /** The contributors of every input scanline, those of the margins included. */
  method AllDownContributors(filter: Filter, scale: real, shift: real, inputH: int, outputH: int)
    returns (ranges: Contributors)
    requires 0.0 < scale <= 1.0 && inputH > 0
    ensures |ranges| == inputH + 2 * PixelMargin(filter, scale)
    ensures AreClamped(ranges, filter, scale, shift, PixelMargin(filter, scale), outputH)
  {
    MarginCoversReach(filter, scale);
    hide PixelMargin, IsClamped;
    var margin := PixelMargin(filter, scale);
    ranges := [];
    for j := 0 to inputH + 2 * margin
      invariant |ranges| == j
      invariant forall i :: 0 <= i < j ==> IsClamped(ranges[i], filter, scale, shift, i - margin, outputH)
    {
      var range := DownContributors(filter, scale, shift, j - margin, outputH);
      ranges := ranges + [range];
    }
  }

  /** Every row, in order, each with exactly the scanlines that have a weight in it or on both sides of it. */
  ghost predicate ShrinksTo(encoded: seq<Row>, outputH: int, weight: int -> int -> real) {
    && |encoded| == outputH
    && forall r :: 0 <= r < outputH ==>
         && encoded[r].index == r && Increasing(encoded[r].sources)
         && forall y :: y in encoded[r].sources <==> Spanned(weight(y), r)
  }

  lemma SourcesAreSpanned(ranges: Contributors, filter: Filter, inputH: int, outputH: int, t0: real, t1: real, r: int)
    requires inputH > 0 && 0 <= r < outputH && 0.0 <= t0 < t1 <= 1.0
    requires 0.0 < VerticalScale(inputH, outputH, t0, t1) <= 1.0
    requires var scale := VerticalScale(inputH, outputH, t0, t1);
             && 0 <= PixelMargin(filter, scale) && |ranges| == inputH + 2 * PixelMargin(filter, scale)
             && AreClamped(ranges, filter, scale, VerticalShift(outputH, t0, t1), PixelMargin(filter, scale), outputH)
    ensures var scale, shift := VerticalScale(inputH, outputH, t0, t1), VerticalShift(outputH, t0, t1);
            var margin := PixelMargin(filter, scale);
            var sources := Feeding(ranges, margin, -margin, inputH + margin, r);
            Increasing(sources) && forall y :: y in sources <==> Spanned(DownWeight(filter, scale, shift, y), r)
  {
    hide *;
    var scale, shift := VerticalScale(inputH, outputH, t0, t1), VerticalShift(outputH, t0, t1);
    var margin := PixelMargin(filter, scale);
    FeedingIs(ranges, margin, -margin, inputH + margin, r);
    forall y
      ensures y in Feeding(ranges, margin, -margin, inputH + margin, r)
              <==> Spanned(DownWeight(filter, scale, shift, y), r)
    {
      if -margin <= y < inputH + margin {
        ContributesIff(ranges, filter, scale, shift, margin, outputH, y, r);
      } else if Spanned(DownWeight(filter, scale, shift, y), r) {
        MarginsSuffice(filter, inputH, outputH, t0, t1, y, r);
      }
    }
  }

  /**
   * Shrinking any region of an image: every output row is encoded once, from the top down, and is made of exactly the
   * input scanlines that have a weight in it, of the image continued without end, and of those whose weights in rows
   * above and below it enclose a zero.
   */
  method Shrink(filter: Filter, inputH: int, outputH: int, t0: real, t1: real) returns (encoded: seq<Row>)
    requires inputH > 0 && outputH > 0 && 0.0 <= t0 < t1 <= 1.0
    requires !UseUpsampling(VerticalScale(inputH, outputH, t0, t1))
    ensures 0.0 < VerticalScale(inputH, outputH, t0, t1) <= 1.0
    ensures ShrinksTo(encoded, outputH, y =>
              DownWeight(filter, VerticalScale(inputH, outputH, t0, t1), VerticalShift(outputH, t0, t1), y))
  {
    RegionSpan(inputH, outputH, t0, t1);
    hide Support, Ceil, Abs, VerticalScale, VerticalShift, PixelMargin, DownWindow, DownWeight;
    hide Feeding, AreClamped, Feeds;
    var scale, shift := VerticalScale(inputH, outputH, t0, t1), VerticalShift(outputH, t0, t1);
    MarginCoversReach(filter, scale);
    var ranges := AllDownContributors(filter, scale, shift, inputH, outputH);
    ClampedFeed(ranges, filter, scale, shift, PixelMargin(filter, scale), outputH);
    encoded := ShrinkRegion(filter, inputH, outputH, t0, t1, ranges);
    forall r | 0 <= r < outputH
      ensures encoded[r].index == r && Increasing(encoded[r].sources)
      ensures forall y :: y in encoded[r].sources <==> Spanned(DownWeight(filter, scale, shift, y), r)
    {
      SourcesAreSpanned(ranges, filter, inputH, outputH, t0, t1, r);
    }
  }
}
