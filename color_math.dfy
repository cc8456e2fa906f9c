/**
 * Pixels, colours and the two pieces of colour arithmetic the mosaic is built on:
 * the average colour of a rectangular region (`avgColor`, and the inner loops of
 * `colorProfile`) and the distance between two colours (`colorDistance`).
 *
 * Sample values are exact naturals and averages exact reals, so the model has no
 * rounding; the 0/0 average of an empty region is `None` rather than NaN.
 */
module ColorMath {
  import opened Wrappers

  /** The red, green and blue samples of one pixel, as `RGBA()` reports them (alpha is ignored). */
  datatype Pixel = Pixel(r: nat, g: nat, b: nat)

  /** The zero value a freshly allocated canvas holds. */
  const Blank := Pixel(0, 0, 0)

  /** An average colour: one exact rational per channel. */
  datatype Color = Color(r: real, g: real, b: real)

  function ColorOf(p: Pixel): Color {
    Color(p.r as real, p.g as real, p.b as real)
  }

  /** An image whose bounds start at (0, 0); `px[y][x]` is the pixel at column x of row y. */
  datatype Image = Image(width: nat, height: nat, px: seq<seq<Pixel>>) {
    ghost predicate WellFormed() {
      |px| == height && forall y :: 0 <= y < height ==> |px[y]| == width
    }
  }

  /** An image of exactly `size` × `size` pixels. */
  ghost predicate IsSquareImage(m: Image, size: nat) {
    m.WellFormed() && m.width == size && m.height == size
  }

  /** Every image of the list is `size` × `size`. */
  ghost predicate AllSquare(imgs: seq<Image>, size: nat) {
    forall k {:trigger imgs[k]} :: 0 <= k < |imgs| ==> IsSquareImage(imgs[k], size)
  }

  /** Per-channel running sums, the accumulators `sumR`, `sumG`, `sumB`. */
  datatype Sums = Sums(r: nat, g: nat, b: nat)

  const NoSums := Sums(0, 0, 0)

  function Add(s: Sums, p: Pixel): Sums {
    Sums(s.r + p.r, s.g + p.g, s.b + p.b)
  }

  function Plus(s: Sums, t: Sums): Sums {
    Sums(s.r + t.r, s.g + t.g, s.b + t.b)
  }

  /** The sums of `k` copies of pixel `p`. */
  function Scale(p: Pixel, k: nat): Sums {
    Sums(p.r * k, p.g * k, p.b * k)
  }

  /** Sum of the pixels of row `y` with `x0 <= x < x1`. */
  function RowSum(m: Image, y: nat, x0: nat, x1: nat): Sums
    requires m.WellFormed() && y < m.height && (x1 <= x0 || x1 <= m.width)
    decreases x1
  {
    if x1 <= x0 then NoSums else Add(RowSum(m, y, x0, x1 - 1), m.px[y][x1 - 1])
  }

  /** Sum of the pixels (x, y) with `x0 <= x < x1` and `y0 <= y < y1`. */
  function RegionSum(m: Image, x0: nat, x1: nat, y0: nat, y1: nat): Sums
    requires m.WellFormed() && (x1 <= x0 || x1 <= m.width) && (y1 <= y0 || y1 <= m.height)
    decreases y1
  {
    if y1 <= y0 then NoSums else Plus(RegionSum(m, x0, x1, y0, y1 - 1), RowSum(m, y1 - 1, x0, x1))
  }

  /** Number of integers in the half-open interval [lo, hi); zero when hi <= lo. */
  function Extent(lo: nat, hi: nat): nat {
    if lo < hi then hi - lo else 0
  }

  /** Each channel sum divided by the pixel count; `None` stands for the 0/0 of an empty region. */
  function AverageOf(s: Sums, count: nat): Option<Color> {
    if count == 0 then None
    else Some(Color(s.r as real / count as real, s.g as real / count as real, s.b as real / count as real))
  }

  /** The average colour of the pixels (x, y) with `x0 <= x < x1` and `y0 <= y < y1`. */
  function RegionAverage(m: Image, x0: nat, x1: nat, y0: nat, y1: nat): (c: Option<Color>)
    requires m.WellFormed() && (x1 <= x0 || x1 <= m.width) && (y1 <= y0 || y1 <= m.height)
    ensures c.Some? <==> x0 < x1 && y0 < y1
  {
    AverageOf(RegionSum(m, x0, x1, y0, y1), Extent(x0, x1) * Extent(y0, y1))
  }

  /** The average colour of a whole image. */
  function ImageAverage(m: Image): (c: Option<Color>)
    requires m.WellFormed()
    ensures c.Some? <==> m.width > 0 && m.height > 0
  {
    RegionAverage(m, 0, m.width, 0, m.height)
  }

  /** `avgColor`: accumulates every pixel of the image row by row, then divides by the count. */
  method AvgColor(m: Image) returns (c: Option<Color>)
    requires m.WellFormed()
    ensures c == ImageAverage(m)
    ensures c.Some? <==> m.width > 0 && m.height > 0
  {
    var sums, count := NoSums, 0;
    var y := 0;
    while y < m.height
      invariant y <= m.height
      invariant sums == RegionSum(m, 0, m.width, 0, y)
      invariant count == m.width * y
    {
      sums, count := AccumulateRow(m, y, sums, count);
      MulSucc(m.width, y);
      y := y + 1;
    }
    assert Extent(0, m.width) == m.width && Extent(0, m.height) == m.height;
    c := AverageOf(sums, count);
  }

  /** The inner loop of `avgColor`: adds every pixel of row y to the sums and the count. */
  method AccumulateRow(m: Image, y: nat, sums0: Sums, count0: nat) returns (sums: Sums, count: nat)
    requires m.WellFormed() && y < m.height
    ensures sums == Plus(sums0, RowSum(m, y, 0, m.width))
    ensures count == count0 + m.width
  {
    var sumR: nat, sumG: nat, sumB: nat := sums0.r, sums0.g, sums0.b;
    count := count0;
    var x := 0;
    while x < m.width
      invariant x <= m.width
      invariant Sums(sumR, sumG, sumB) == Plus(sums0, RowSum(m, y, 0, x))
      invariant count == count0 + x
    {
      var p := m.px[y][x];
      sumR, sumG, sumB := sumR + p.r, sumG + p.g, sumB + p.b;
      count := count + 1;
      x := x + 1;
    }
    sums := Sums(sumR, sumG, sumB);
  }

  lemma {:induction false} UniformRowSum(m: Image, y: nat, x0: nat, x1: nat, p: Pixel)
    requires m.WellFormed() && y < m.height && x1 <= m.width
    requires forall x :: x0 <= x < x1 ==> m.px[y][x] == p
    ensures RowSum(m, y, x0, x1) == Scale(p, Extent(x0, x1))
    decreases x1
  {
    if x0 < x1 {
      UniformRowSum(m, y, x0, x1 - 1, p);
      var k := Extent(x0, x1 - 1);
      assert Extent(x0, x1) == k + 1;
      MulSucc(p.r, k);
      MulSucc(p.g, k);
      MulSucc(p.b, k);
    }
  }

  lemma MulSucc(a: nat, b: nat)
    ensures a * b + a == a * (b + 1)
    ensures (b + 1) * a == b * a + a
  {
  }

  /** A region whose pixels all equal `p` sums to `count` copies of `p`. */
  lemma {:induction false} UniformRegionSum(m: Image, x0: nat, x1: nat, y0: nat, y1: nat, p: Pixel)
    requires m.WellFormed() && x1 <= m.width && y1 <= m.height
    requires forall y, x :: y0 <= y < y1 && x0 <= x < x1 ==> m.px[y][x] == p
    ensures RegionSum(m, x0, x1, y0, y1) == Scale(p, Extent(x0, x1) * Extent(y0, y1))
    decreases y1
  {
    if y0 < y1 {
      var w, h := Extent(x0, x1), Extent(y0, y1 - 1);
      UniformRegionSum(m, x0, x1, y0, y1 - 1, p);
      UniformRowSum(m, y1 - 1, x0, x1, p);
      assert Extent(y0, y1) == h + 1;
      ScaleSplit(p, w, h);
    }
  }

  lemma ScaleSplit(p: Pixel, w: nat, k: nat)
    ensures Plus(Scale(p, w * k), Scale(p, w)) == Scale(p, w * (k + 1))
  {
    assert w * (k + 1) == w * k + w;
    MulAddOne(p.r, w * k, w);
    MulAddOne(p.g, w * k, w);
    MulAddOne(p.b, w * k, w);
  }

  lemma MulAddOne(a: nat, u: nat, v: nat)
    ensures a * u + a * v == a * (u + v)
  {
  }

  /** A non-empty region of one colour averages to exactly that colour. */
  lemma UniformRegionAverage(m: Image, x0: nat, x1: nat, y0: nat, y1: nat, p: Pixel)
    requires m.WellFormed() && x1 <= m.width && y1 <= m.height
    requires x0 < x1 && y0 < y1
    requires forall y, x :: y0 <= y < y1 && x0 <= x < x1 ==> m.px[y][x] == p
    ensures RegionAverage(m, x0, x1, y0, y1) == Some(ColorOf(p))
  {
    UniformRegionSum(m, x0, x1, y0, y1, p);
    var n := Extent(x0, x1) * Extent(y0, y1);
    assert n > 0;
    ScaledAverage(p, n);
  }

  lemma ScaledAverage(p: Pixel, n: nat)
    requires n > 0
    ensures AverageOf(Scale(p, n), n) == Some(ColorOf(p))
  {
    CancelCount(p.r, n);
    CancelCount(p.g, n);
    CancelCount(p.b, n);
  }

  lemma CancelCount(a: nat, n: nat)
    requires n > 0
    ensures (a * n) as real / n as real == a as real
  {
    assert (a * n) as real == a as real * n as real;
  }

  /** The sum of a row depends on the pixels inside [x0, x1) and on no other. */
  lemma {:induction false} RowSumLocal(m1: Image, m2: Image, y: nat, x0: nat, x1: nat)
    requires m1.WellFormed() && y < m1.height && x1 <= m1.width
    requires m2.WellFormed() && y < m2.height && x1 <= m2.width
    requires forall x :: x0 <= x < x1 ==> m1.px[y][x] == m2.px[y][x]
    ensures RowSum(m1, y, x0, x1) == RowSum(m2, y, x0, x1)
    decreases x1
  {
    if x0 < x1 {
      RowSumLocal(m1, m2, y, x0, x1 - 1);
    }
  }

  /** The sum of a region depends on the pixels inside it and on no other. */
  lemma {:induction false} RegionSumLocal(m1: Image, m2: Image, x0: nat, x1: nat, y0: nat, y1: nat)
    requires m1.WellFormed() && x1 <= m1.width && y1 <= m1.height
    requires m2.WellFormed() && x1 <= m2.width && y1 <= m2.height
    requires forall y, x :: y0 <= y < y1 && x0 <= x < x1 ==> m1.px[y][x] == m2.px[y][x]
    ensures RegionSum(m1, x0, x1, y0, y1) == RegionSum(m2, x0, x1, y0, y1)
    decreases y1
  {
    if y0 < y1 {
      RegionSumLocal(m1, m2, x0, x1, y0, y1 - 1);
      RowSumLocal(m1, m2, y1 - 1, x0, x1);
    }
  }

  function Sq(x: real): real {
    x * x
  }

  /**
   * `colorDistance` without its final square root: the squared Euclidean distance
   * in RGB space. The square root is monotone, so both rank colours alike
   * (see RankingBySquaredDistance).
   */
  function DistanceSq(c1: Color, c2: Color): (d: real)
    ensures d >= 0.0
  {
    SquareFacts(c1.r - c2.r);
    SquareFacts(c1.g - c2.g);
    SquareFacts(c1.b - c2.b);
    Sq(c1.r - c2.r) + Sq(c1.g - c2.g) + Sq(c1.b - c2.b)
  }

  lemma DistanceSymmetric(c1: Color, c2: Color)
    ensures DistanceSq(c1, c2) == DistanceSq(c2, c1)
  {
  }

  /** The distance is zero exactly when the two colours are equal. */
  lemma DistanceZeroIffEqual(c1: Color, c2: Color)
    ensures DistanceSq(c1, c2) == 0.0 <==> c1 == c2
  {
    SquareFacts(c1.r - c2.r);
    SquareFacts(c1.g - c2.g);
    SquareFacts(c1.b - c2.b);
  }

  lemma SqBelowProduct(u: real, v: real)
    requires 0.0 <= u <= v
    ensures Sq(u) <= u * v
  {
  }

  lemma ProductBelowSq(u: real, v: real)
    requires 0.0 <= u < v
    ensures u * v < Sq(v)
  {
  }

  /** Squares are non-negative, and zero only for zero. */
  lemma SquareFacts(x: real)
    ensures Sq(x) >= 0.0
    ensures Sq(x) == 0.0 <==> x == 0.0
  {
    if x > 0.0 {
      ProductBelowSq(0.0, x);
    } else if x < 0.0 {
      assert Sq(x) == Sq(-x);
      ProductBelowSq(0.0, -x);
    }
  }

  /** Squaring is strictly increasing on the non-negative reals. */
  lemma SquareMonotone(u: real, v: real)
    requires 0.0 <= u < v
    ensures Sq(u) < Sq(v)
  {
    SqBelowProduct(u, v);
    ProductBelowSq(u, v);
  }

  /**
   * Comparing Euclidean distances (the non-negative square roots `e1`, `e2` of the
   * squared distances) gives the same answer as comparing squared distances.
   */
  lemma RankingBySquaredDistance(c: Color, a: Color, b: Color, e1: real, e2: real)
    requires e1 >= 0.0 && Sq(e1) == DistanceSq(c, a)
    requires e2 >= 0.0 && Sq(e2) == DistanceSq(c, b)
    ensures e1 < e2 <==> DistanceSq(c, a) < DistanceSq(c, b)
    ensures e1 == e2 <==> DistanceSq(c, a) == DistanceSq(c, b)
  {
    if e1 < e2 {
      SquareMonotone(e1, e2);
    } else if e2 < e1 {
      SquareMonotone(e2, e1);
    }
  }
}
