/** The resampling kernels over exact reals, and which scanlines have a weight. */
module ResizeKernels {
  import opened ResizeWindows

  function Abs(x: real): real { if x < 0.0 then -x else x }

  /** The weight at a distance; only the box depends on the scale. */
  function Kernel(filter: Filter, distance: real, scale: real): real
    requires 0.0 < scale <= 1.0
  {
    var x := Abs(distance);
    match filter
    case Box =>
      if x >= 0.5 + scale / 2.0 then 0.0 else if x <= 0.5 - scale / 2.0 then 1.0 else (0.5 + scale / 2.0 - x) / scale
    case Triangle => if x <= 1.0 then 1.0 - x else 0.0
    case CubicBSpline =>
      if x < 1.0 then (4.0 + x * x * (3.0 * x - 6.0)) / 6.0
      else if x < 2.0 then (8.0 + x * (-12.0 + x * (6.0 - x))) / 6.0
      else 0.0
    case CatmullRom =>
      if x < 1.0 then 1.0 - x * x * (2.5 - 1.5 * x)
      else if x < 2.0 then 2.0 - x * (4.0 + x * (0.5 * x - 2.5))
      else 0.0
    case Mitchell =>
      if x < 1.0 then (16.0 + x * x * (21.0 * x - 36.0)) / 18.0
      else if x < 2.0 then (32.0 + x * (-60.0 + x * (36.0 - 7.0 * x))) / 18.0
      else 0.0
  }

  // ---------------------------------------------------------------- how far the kernels reach

  /** At a distance of `bound` or more the kernel is zero. */
  ghost predicate VanishesFrom(filter: Filter, scale: real, bound: real)
    requires 0.0 < scale <= 1.0
  {
    forall x: real :: Abs(x) >= bound ==> Kernel(filter, x, scale) == 0.0
  }

  /** The outer pieces of the cubic kernels, in factors. */
  lemma OuterPieces(x: real, scale: real)
    requires 1.0 <= x < 2.0 && 0.0 < scale <= 1.0
    ensures Kernel(CubicBSpline, x, scale) == (2.0 - x) * ((2.0 - x) * (2.0 - x)) / 6.0
    ensures Kernel(CatmullRom, x, scale) == (2.0 - x) * ((2.0 - x) * (1.0 - x)) / 2.0
    ensures Kernel(Mitchell, x, scale) == (2.0 - x) * ((2.0 - x) * (8.0 - 7.0 * x)) / 18.0
  {
  }

  lemma ProductIsNotZero(a: real, b: real, d: real)
    requires a != 0.0 && b != 0.0 && d > 0.0
    ensures a * (a * b) / d != 0.0
  {
    var p := a * b;
    assert p != 0.0;
    var q := a * p;
    assert q != 0.0;
    assert q == a * (a * b);
    assert q / d * d == q;
  }

  /** Close to its support, but for the last zero before it, a kernel is not zero. */
  lemma OuterWeightIsNotZero(filter: Filter, x: real, scale: real)
    requires 0.0 < scale <= 1.0 && 0.5 <= x < Support(filter, scale)
    requires Support(filter, scale) == 2.0 ==> 1.5 <= x
    ensures Kernel(filter, x, scale) != 0.0
  {
    match filter
    case Box =>
      var rest := 0.5 + scale / 2.0 - x;
      assert rest / scale * scale == rest;
    case Triangle =>
    case CubicBSpline =>
      OuterPieces(x, scale);
      ProductIsNotZero(2.0 - x, 2.0 - x, 6.0);
    case CatmullRom =>
      OuterPieces(x, scale);
      ProductIsNotZero(2.0 - x, 1.0 - x, 2.0);
    case Mitchell =>
      OuterPieces(x, scale);
      ProductIsNotZero(2.0 - x, 8.0 - 7.0 * x, 18.0);
  }

  /** The support is the least bound from which the kernel is zero. */
  lemma SupportIsLeast(filter: Filter, scale: real, bound: real)
    requires 0.0 < scale <= 1.0
    ensures VanishesFrom(filter, scale, bound) <==> bound >= Support(filter, scale)
  {
    var support := Support(filter, scale);
    if bound < support {
      var from := if support == 2.0 then 1.5 else 0.5;
      var x := ((if bound > from then bound else from) + support) / 2.0;
      OuterWeightIsNotZero(filter, x, scale);
      assert Kernel(filter, x, scale) != 0.0;
    }
  }

  // ---------------------------------------------------------------- windows hold what has a weight

  /** The weights of the pixels around `mid`. */
  function Weights(filter: Filter, mid: real, scale: real): int -> real
    requires 0.0 < scale <= 1.0
  {
    i => Kernel(filter, mid - (i as real + 0.5), scale)
  }

  /** The weight of input scanline `i` in output row `n` of an enlargement. */
  function UpWeight(filter: Filter, scale: real, shift: real, n: int): int -> real
    requires scale > 1.0
  {
    InverseScale(scale);
    Weights(filter, (n as real + 0.5 + shift) / scale, 1.0 / scale)
  }

  /** The weight of input scanline `n` in an output row of a shrinking. */
  function DownWeight(filter: Filter, scale: real, shift: real, n: int): int -> real
    requires 0.0 < scale <= 1.0
  {
    r => Kernel(filter, r as real + 0.5 - ((n as real + 0.5) * scale - shift), scale)
  }

  lemma InverseScale(scale: real)
    requires scale > 1.0
    ensures 0.0 < 1.0 / scale <= 1.0
  {
    assert 1.0 / scale * scale == 1.0;
  }

  /** Of the scanlines around `mid` the window holds all that are nearer than `reach`, and none farther. */
  lemma AroundHolds(mid: real, reach: real, i: int)
    requires reach >= 0.5
    ensures Abs(mid - (i as real + 0.5)) < reach ==> Around(mid, reach).first <= i <= Around(mid, reach).last
    ensures Around(mid, reach).first <= i <= Around(mid, reach).last ==> Abs(mid - (i as real + 0.5)) <= reach
  {
  }

  /** Enlarging: a scanline with a weight lies in the window, and one in the window no farther than any weight could. */
  lemma UpWindowIsExact(filter: Filter, scale: real, shift: real, n: int, i: int, bound: real)
    requires scale > 1.0
    ensures var w := UpWindow(filter, scale, shift, n);
            && (UpWeight(filter, scale, shift, n)(i) != 0.0 ==> w.first <= i <= w.last)
            && 0.0 < 1.0 / scale <= 1.0
            && (w.first <= i <= w.last && VanishesFrom(filter, 1.0 / scale, bound) ==>
                  Abs((n as real + 0.5 + shift) / scale - (i as real + 0.5)) <= bound)
  {
    InverseScale(scale);
    var mid, reach := (n as real + 0.5 + shift) / scale, Support(filter, 1.0 / scale);
    UpIsAround(filter, scale, shift, n);
    AroundHolds(mid, reach, i);
    SupportIsLeast(filter, 1.0 / scale, bound);
    SupportIsLeast(filter, 1.0 / scale, reach);
  }

  /** Shrinking: the same for the output rows of an input scanline. */
  lemma DownWindowIsExact(filter: Filter, scale: real, shift: real, n: int, r: int, bound: real)
    requires 0.0 < scale <= 1.0
    ensures var w := DownWindow(filter, scale, shift, n);
            && (DownWeight(filter, scale, shift, n)(r) != 0.0 ==> w.first <= r <= w.last)
            && (w.first <= r <= w.last && VanishesFrom(filter, scale, bound) ==>
                  Abs(r as real + 0.5 - ((n as real + 0.5) * scale - shift)) <= bound)
  {
    var mid, reach := (n as real + 0.5) * scale - shift, Support(filter, scale);
    DownIsAround(filter, scale, shift, n, mid);
    AroundHolds(mid, reach, r);
    SupportIsLeast(filter, scale, bound);
    SupportIsLeast(filter, scale, reach);
  }

  // ---------------------------------------------------------------- how many scanlines a row takes

  /** The whole numbers strictly between two reals. */
  function Between(low: real, high: real): Window { Window(low.Floor + 1, Ceil(high) - 1) }

  lemma BetweenHolds(low: real, high: real, i: int)
    ensures Between(low, high).first <= i <= Between(low, high).last <==> low < i as real < high
    ensures Ceil(high - low) - 1 <= Between(low, high).last - Between(low, high).first + 1 <= Ceil(high - low)
  {
  }

  /** Input scanline `i` comes closer to output row `r` than the support, measured in the coarser of the two. */
  predicate Reaches(filter: Filter, scale: real, shift: real, i: int, r: int)
    requires scale > 0.0
  {
    if UseUpsampling(scale) then Abs(i as real + 0.5 - (r as real + 0.5 + shift) / scale) < Support(filter, 1.0 / scale)
    else Abs(r as real + 0.5 - ((i as real + 0.5) * scale - shift)) < Support(filter, scale)
  }

  /** How far a row reaches, in input scanlines. */
  function Reach(filter: Filter, scale: real): real
    requires scale > 0.0
  {
    if UseUpsampling(scale) then Support(filter, 1.0 / scale) else Support(filter, scale) / scale
  }

  lemma ReachesIff(filter: Filter, scale: real, shift: real, i: int, r: int)
    requires scale > 0.0
    ensures var mid := (r as real + 0.5 + shift) / scale - 0.5;
            Reaches(filter, scale, shift, i, r) <==>
            mid - Reach(filter, scale) < i as real < mid + Reach(filter, scale)
  {
    hide Support;
    if !UseUpsampling(scale) {
      DistanceScales(i as real + 0.5, r as real + 0.5 + shift, scale, Support(filter, scale));
    }
  }

  lemma PixelWidthIsTwiceReach(filter: Filter, scale: real)
    requires scale > 0.0
    ensures PixelWidth(filter, scale) == Ceil(Reach(filter, scale) + Reach(filter, scale))
  {
    hide Support, Ceil;
    if !UseUpsampling(scale) { TwiceQuotient(Support(filter, scale), scale); }
  }

  /**
   * The filter's width in pixels is the greatest number of input scanlines that reach an output row: for any shift
   * and row there are as many, or one fewer.
   */
  lemma PixelWidthIsGreatest(filter: Filter, scale: real, shift: real, r: int) returns (w: Window)
    requires scale > 0.0
    ensures forall i :: w.first <= i <= w.last <==> Reaches(filter, scale, shift, i, r)
    ensures PixelWidth(filter, scale) - 1 <= w.last - w.first + 1 <= PixelWidth(filter, scale)
  {
    hide Reaches, Between, Support, PixelWidth, Ceil, Reach;
    var mid, reach := (r as real + 0.5 + shift) / scale - 0.5, Reach(filter, scale);
    w := Between(mid - reach, mid + reach);
    PixelWidthIsTwiceReach(filter, scale);
    assert mid + reach - (mid - reach) == reach + reach;
    BetweenHolds(mid - reach, mid + reach, 0);
    forall i ensures w.first <= i <= w.last <==> Reaches(filter, scale, shift, i, r) {
      BetweenHolds(mid - reach, mid + reach, i);
      ReachesIff(filter, scale, shift, i, r);
    }
  }

  lemma TwiceQuotient(a: real, scale: real)
    requires scale > 0.0
    ensures a * 2.0 / scale == a / scale + a / scale
  {
    var q := a / scale;
    assert q * scale == a;
    assert (q + q) * scale == a * 2.0;
    assert (q + q) * scale / scale == q + q;
  }

  lemma DistanceScales(x: real, y: real, scale: real, reach: real)
    requires scale > 0.0
    ensures Abs(x - y / scale) < reach / scale <==> Abs(y - x * scale) < reach
  {
    var p, q := y / scale, reach / scale;
    assert p * scale == y && q * scale == reach;
    assert (x - p) * scale == x * scale - y;
    CompareProducts(q, x - p, scale);
    CompareProducts(q, p - x, scale);
    assert (p - x) * scale == y - x * scale;
  }

  // ---------------------------------------------------------------- the weights of an output row

  function Total(weight: int -> real, first: int, last: int): real
    decreases last - first
  {
    if first > last then 0.0 else weight(first) + Total(weight, first + 1, last)
  }

  function Square(x: real): real { x * x }

  function Cube(x: real): real { x * (x * x) }

  /** The cubic kernels as polynomials of the distance. */
  lemma InnerPolynomial(x: real, scale: real)
    requires 0.0 <= x <= 1.0 && 0.0 < scale <= 1.0
    ensures Kernel(CubicBSpline, x, scale) == (4.0 - 6.0 * Square(x) + 3.0 * Cube(x)) / 6.0
    ensures Kernel(CatmullRom, x, scale) == 1.0 - 2.5 * Square(x) + 1.5 * Cube(x)
    ensures Kernel(Mitchell, x, scale) == (16.0 - 36.0 * Square(x) + 21.0 * Cube(x)) / 18.0
  {
    assert x * x * (3.0 * x - 6.0) == 3.0 * Cube(x) - 6.0 * Square(x);
    assert x * x * (2.5 - 1.5 * x) == 2.5 * Square(x) - 1.5 * Cube(x);
    assert x * x * (21.0 * x - 36.0) == 21.0 * Cube(x) - 36.0 * Square(x);
  }

  lemma OuterPolynomial(x: real, scale: real)
    requires 1.0 <= x <= 2.0 && 0.0 < scale <= 1.0
    ensures Kernel(CubicBSpline, x, scale) == (8.0 - 12.0 * x + 6.0 * Square(x) - Cube(x)) / 6.0
    ensures Kernel(CatmullRom, x, scale) == 2.0 - 4.0 * x + 2.5 * Square(x) - 0.5 * Cube(x)
    ensures Kernel(Mitchell, x, scale) == (32.0 - 60.0 * x + 36.0 * Square(x) - 7.0 * Cube(x)) / 18.0
  {
    assert x * (-12.0 + x * (6.0 - x)) == -12.0 * x + 6.0 * Square(x) - Cube(x);
    assert x * (4.0 + x * (0.5 * x - 2.5)) == 4.0 * x - 2.5 * Square(x) + 0.5 * Cube(x);
    assert x * (-60.0 + x * (36.0 - 7.0 * x)) == -60.0 * x + 36.0 * Square(x) - 7.0 * Cube(x);
  }

  lemma KernelIsEven(filter: Filter, x: real, scale: real)
    requires 0.0 < scale <= 1.0
    ensures Kernel(filter, -x, scale) == Kernel(filter, x, scale)
  {
  }

  lemma Powers(t: real)
    ensures Square(1.0 - t) == 1.0 - 2.0 * t + Square(t)
    ensures Square(1.0 + t) == 1.0 + 2.0 * t + Square(t)
    ensures Square(2.0 - t) == 4.0 - 4.0 * t + Square(t)
    ensures Cube(1.0 - t) == 1.0 - 3.0 * t + 3.0 * Square(t) - Cube(t)
    ensures Cube(1.0 + t) == 1.0 + 3.0 * t + 3.0 * Square(t) + Cube(t)
    ensures Cube(2.0 - t) == 8.0 - 12.0 * t + 6.0 * Square(t) - Cube(t)
  {
  }

  /** What the outer and inner polynomials are at 1 + t, t, 1 - t and 2 - t, given the powers of t. */
  lemma PolynomialsSumToOne(t: real, t2: real, t3: real)
    ensures var a2, a3, b2, b3, c2, c3 := 1.0 + 2.0 * t + t2, 1.0 + 3.0 * t + 3.0 * t2 + t3,
                1.0 - 2.0 * t + t2, 1.0 - 3.0 * t + 3.0 * t2 - t3, 4.0 - 4.0 * t + t2, 8.0 - 12.0 * t + 6.0 * t2 - t3;
            && (8.0 - 12.0 * (1.0 + t) + 6.0 * a2 - a3) / 6.0 + (4.0 - 6.0 * t2 + 3.0 * t3) / 6.0
               + (4.0 - 6.0 * b2 + 3.0 * b3) / 6.0 + (8.0 - 12.0 * (2.0 - t) + 6.0 * c2 - c3) / 6.0 == 1.0
            && (2.0 - 4.0 * (1.0 + t) + 2.5 * a2 - 0.5 * a3) + (1.0 - 2.5 * t2 + 1.5 * t3)
               + (1.0 - 2.5 * b2 + 1.5 * b3) + (2.0 - 4.0 * (2.0 - t) + 2.5 * c2 - 0.5 * c3) == 1.0
            && (32.0 - 60.0 * (1.0 + t) + 36.0 * a2 - 7.0 * a3) / 18.0 + (16.0 - 36.0 * t2 + 21.0 * t3) / 18.0
               + (16.0 - 36.0 * b2 + 21.0 * b3) / 18.0 + (32.0 - 60.0 * (2.0 - t) + 36.0 * c2 - 7.0 * c3) / 18.0 == 1.0
  {
  }

  /** The cubic kernels at unit distances sum to one. */
  lemma CubicsSumToOne(filter: Filter, t: real, scale: real)
    requires filter.CubicBSpline? || filter.CatmullRom? || filter.Mitchell?
    requires 0.0 <= t < 1.0 && 0.0 < scale <= 1.0
    ensures Kernel(filter, 1.0 + t, scale) + Kernel(filter, t, scale) + Kernel(filter, 1.0 - t, scale)
            + Kernel(filter, 2.0 - t, scale) == 1.0
  {
    OuterPolynomial(1.0 + t, scale);
    InnerPolynomial(t, scale);
    InnerPolynomial(1.0 - t, scale);
    OuterPolynomial(2.0 - t, scale);
    Powers(t);
    PolynomialsSumToOne(t, Square(t), Cube(t));
    hide *;
  }

  lemma FourWeights(weight: int -> real, first: int)
    ensures Total(weight, first, first) == weight(first)
    ensures Total(weight, first, first + 1) == weight(first) + weight(first + 1)
    ensures Total(weight, first, first + 2) == weight(first) + weight(first + 1) + weight(first + 2)
    ensures Total(weight, first, first + 3) == weight(first) + weight(first + 1) + weight(first + 2) + weight(first + 3)
  {
    assert Total(weight, first + 3, first + 3) == weight(first + 3);
    assert Total(weight, first + 2, first + 2) == weight(first + 2);
    assert Total(weight, first + 1, first + 1) == weight(first + 1);
    assert Total(weight, first + 2, first + 3) == weight(first + 2) + weight(first + 3);
  }

  lemma CubicTotal(filter: Filter, mid: real, scale: real)
    requires filter.CubicBSpline? || filter.CatmullRom? || filter.Mitchell?
    requires 0.0 < scale <= 1.0
    ensures Total(Weights(filter, mid, scale), Around(mid, 2.0).first, Around(mid, 2.0).last) == 1.0
  {
    var m := (mid - 0.5).Floor;
    var t := mid - 0.5 - m as real;
    var weight := Weights(filter, mid, scale);
    assert Around(mid, 2.0) == Window(m - 1, m + 2);
    FourWeights(weight, m - 1);
    CubicsSumToOne(filter, t, scale);
    KernelIsEven(filter, 1.0 - t, scale);
    KernelIsEven(filter, 2.0 - t, scale);
    hide Kernel;
    assert mid - ((m - 1) as real + 0.5) == 1.0 + t && mid - (m as real + 0.5) == t;
    assert mid - ((m + 1) as real + 0.5) == -(1.0 - t) && mid - ((m + 2) as real + 0.5) == -(2.0 - t);
  }

  lemma TriangleTotal(mid: real, scale: real)
    requires 0.0 < scale <= 1.0
    ensures Total(Weights(Triangle, mid, scale), Around(mid, 1.0).first, Around(mid, 1.0).last) == 1.0
  {
    var m := (mid - 0.5).Floor;
    assert Around(mid, 1.0) == Window(m, m + 1);
    FourWeights(Weights(Triangle, mid, scale), m);
  }

  /** Either side of its flat top the box falls off by the same slope. */
  lemma BoxWeight(x: real, scale: real)
    requires 0.0 < scale <= 1.0 && 0.5 - scale / 2.0 < x <= 0.5 + scale / 2.0
    ensures Kernel(Box, x, scale) == (0.5 + scale / 2.0 - x) / scale
  {
    assert 0.0 / scale == 0.0;
  }

  lemma SidesAddUp(a: real, b: real, scale: real)
    requires scale > 0.0 && a + b == scale
    ensures a / scale + b / scale == 1.0
  {
    assert a / scale + b / scale == (a + b) / scale;
  }

  /** Where the pixel that `u` lies in and the one before share the weight. */
  lemma BoxBegins(u: real, scale: real)
    requires 0.0 < scale <= 1.0 && 0.0 <= u < scale / 2.0
    ensures Kernel(Box, u + 0.5, scale) + Kernel(Box, u - 0.5, scale) == 1.0
    ensures u + scale / 2.0 >= 1.0 ==> Kernel(Box, u - 1.5, scale) == 0.0
  {
    KernelIsEven(Box, 0.5 - u, scale);
    KernelIsEven(Box, 1.5 - u, scale);
    BoxWeight(0.5 - u, scale);
    BoxWeight(u + 0.5, scale);
    SidesAddUp(scale / 2.0 + u, scale / 2.0 - u, scale);
    hide Kernel;
    assert 0.5 + scale / 2.0 - (0.5 - u) == scale / 2.0 + u && 0.5 + scale / 2.0 - (u + 0.5) == scale / 2.0 - u;
  }

  /** Where it shares the weight with the one after. */
  lemma BoxEnds(u: real, scale: real)
    requires 0.0 < scale <= 1.0 && scale / 2.0 <= u < 1.0 <= u + scale / 2.0
    ensures Kernel(Box, u - 0.5, scale) + Kernel(Box, u - 1.5, scale) == 1.0
  {
    KernelIsEven(Box, 1.5 - u, scale);
    SidesAddUp(scale / 2.0 + 1.0 - u, scale / 2.0 + u - 1.0, scale);
    BoxWeight(1.5 - u, scale);
    var half := scale / 2.0;
    assert 0.5 + half - (u - 0.5) == half + 1.0 - u && 0.5 + half - (1.5 - u) == half + u - 1.0;
    if u - 0.5 > 0.5 - scale / 2.0 { BoxWeight(u - 0.5, scale); }
  }

  lemma BoxTotal(mid: real, scale: real)
    requires 0.0 < scale <= 1.0
    ensures var w := Around(mid, 0.5 + scale / 2.0); Total(Weights(Box, mid, scale), w.first, w.last) == 1.0
  {
    var half, m := scale / 2.0, mid.Floor;
    var u := mid - m as real;
    var w, weight := Around(mid, 0.5 + half), Weights(Box, mid, scale);
    FourWeights(weight, w.first);
    if u < half { BoxBegins(u, scale); } else if u + half >= 1.0 { BoxEnds(u, scale); }
    assert w == Window(if u < half then m - 1 else m, if u + half >= 1.0 then m + 1 else m);
    hide Kernel, Total, Around;
    assert mid - ((m - 1) as real + 0.5) == u + 0.5 && mid - (m as real + 0.5) == u - 0.5;
    assert mid - ((m + 1) as real + 0.5) == u - 1.5;
  }

  /** The weights of an output row of an enlargement sum to one, whatever the filter and wherever the row lies. */
  lemma WeightsSumToOne(filter: Filter, scale: real, shift: real, n: int)
    requires scale > 1.0
    ensures var w := UpWindow(filter, scale, shift, n);
            Total(UpWeight(filter, scale, shift, n), w.first, w.last) == 1.0
  {
    InverseScale(scale);
    UpIsAround(filter, scale, shift, n);
    var mid, inverse := (n as real + 0.5 + shift) / scale, 1.0 / scale;
    var w := Around(mid, Support(filter, inverse));
    match filter {
      case Box => BoxTotal(mid, inverse);
      case Triangle => TriangleTotal(mid, inverse);
      case _ => CubicTotal(filter, mid, inverse);
    }
  }

  // ---------------------------------------------------------------- from the first scanline with a weight to the last

  /** The range from the first scanline with a weight to the last one. */
  ghost predicate IsExtent(range: Window, weight: int -> real) {
    && range.first <= range.last && weight(range.first) != 0.0 && weight(range.last) != 0.0
    && forall i :: weight(i) != 0.0 ==> range.first <= i <= range.last
  }

  /** Less than half a scanline away there is a weight. */
  lemma NearWeightIsPositive(filter: Filter, x: real, scale: real)
    requires 0.0 < scale <= 1.0 && -0.5 <= x <= 0.5
    ensures Kernel(filter, x, scale) > 0.0
  {
    var d := Abs(x);
    InnerPolynomial(d, scale);
    SquareAtMost(d);
    KernelIsEven(filter, x, scale);
    if filter.Box? && d > 0.5 - scale / 2.0 {
      BoxWeight(d, scale);
      assert (0.5 + scale / 2.0 - d) / scale * scale > 0.0;
    }
  }

  lemma ProductIsNotNegative(a: real, b: real)
    requires a >= 0.0 && b >= 0.0
    ensures a * b >= 0.0
  {
  }

  lemma SquareAtMost(x: real)
    requires 0.0 <= x <= 0.5
    ensures 0.0 <= Square(x) <= 0.25 && 0.0 <= Cube(x)
  {
    var rest := 0.5 - x;
    ProductIsNotNegative(rest, x);
    ProductIsNotNegative(x, x);
    ProductIsNotNegative(x, x * x);
    assert rest * x == 0.5 * x - Square(x);
  }

  lemma DownWeightExists(filter: Filter, scale: real, shift: real, n: int)
    requires 0.0 < scale <= 1.0
    ensures var w := DownWindow(filter, scale, shift, n);
            exists r :: w.first <= r <= w.last && DownWeight(filter, scale, shift, n)(r) != 0.0
  {
    var mid := (n as real + 0.5) * scale - shift;
    NearWeightIsPositive(filter, mid.Floor as real + 0.5 - mid, scale);
    assert DownWeight(filter, scale, shift, n)(mid.Floor) != 0.0;
    DownWindowIsExact(filter, scale, shift, n, mid.Floor, 0.0);
  }
}
