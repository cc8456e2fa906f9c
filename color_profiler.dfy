/**
 * `colorProfile`: cuts the target into a grid of sqSize × sqSize squares and
 * records, for each, its (unclipped) bounds and the average colour of the part of
 * the square that lies inside the image.
 *
 * The grid is n × n with n = width / sqSize + 1: the height is not consulted, so a
 * target taller or shorter than it is wide gets rows that are missing or empty.
 */
module ColorProfiler {
  import opened Wrappers
  import opened ColorMath

  /** `image.Rectangle`: Min = (x0, y0), Max = (x1, y1), the Max edge exclusive. */
  datatype Rect = Rect(x0: int, y0: int, x1: int, y1: int)

  /** `ImageSq`: a grid cell's bounds and its average colour (`None` for an empty cell). */
  datatype ImageSq = ImageSq(bounds: Rect, avgColor: Option<Color>)

  /** Number of rows, and of columns, of the profile grid. */
  function GridSize(img: Image, sqSize: nat): (n: nat)
    requires sqSize > 0
    ensures n >= 1
  {
    img.width / sqSize + 1
  }

  lemma DivBounds(w: nat, s: nat)
    requires s > 0
    ensures (w / s) * s <= w < (w / s + 1) * s
  {
    assert w == (w / s) * s + w % s;
    assert (w / s + 1) * s == (w / s) * s + s;
  }

  /** The n columns of width S reach just past the right edge: (n-1)·S <= width < n·S. */
  lemma GridCoversWidth(img: Image, sqSize: nat)
    requires sqSize > 0
    ensures (GridSize(img, sqSize) - 1) * sqSize <= img.width < GridSize(img, sqSize) * sqSize
  {
    DivBounds(img.width, sqSize);
  }

  function Min(a: nat, b: nat): nat {
    if a < b then a else b
  }

  /**
   * The cell at row j, column i: its square is [i·S, (i+1)·S) × [j·S, (j+1)·S), and its
   * average is taken over the pixels of that square that lie inside the image.
   */
  function ProfileCell(img: Image, sqSize: nat, j: nat, i: nat): (sq: ImageSq)
    requires img.WellFormed()
    ensures sq.bounds.x1 - sq.bounds.x0 == sqSize && sq.bounds.y1 - sq.bounds.y0 == sqSize
    ensures sq.avgColor.Some? ==> sqSize > 0
  {
    var x, y := i * sqSize, j * sqSize;
    ImageSq(Rect(x, y, x + sqSize, y + sqSize),
            RegionAverage(img, x, Min(x + sqSize, img.width), y, Min(y + sqSize, img.height)))
  }

  /**
   * One iteration of the `colorProfile` grid loop: sums the samples of the in-image
   * part of cell (j, i), counts its pixels and divides.
   */
  method ProfileSquare(img: Image, sqSize: nat, j: nat, i: nat) returns (sq: ImageSq)
    requires img.WellFormed()
    ensures sq == ProfileCell(img, sqSize, j, i)
    ensures sq.bounds == Rect(i * sqSize, j * sqSize, (i + 1) * sqSize, (j + 1) * sqSize)
    ensures sq.avgColor.Some? <==> sqSize > 0 && j * sqSize < img.height && i * sqSize < img.width
  {
    var y := j * sqSize;
    var x := i * sqSize;
    var sums, count := SumSquare(img, x, y, sqSize);
    sq := ImageSq(Rect(x, y, x + sqSize, y + sqSize), AverageOf(sums, count));
    MulSucc(i, sqSize);
    MulSucc(j, sqSize);
  }

  /**
   * The accumulation loops of `colorProfile` for the square with top-left (x, y):
   * rows y1 from y while y1 < y + sqSize and y1 < height.
   */
  method SumSquare(img: Image, x: nat, y: nat, sqSize: nat) returns (sums: Sums, count: nat)
    requires img.WellFormed()
    ensures sums == RegionSum(img, x, Min(x + sqSize, img.width), y, Min(y + sqSize, img.height))
    ensures count == Extent(x, Min(x + sqSize, img.width)) * Extent(y, Min(y + sqSize, img.height))
  {
    ghost var yEnd, xEnd := Min(y + sqSize, img.height), Min(x + sqSize, img.width);
    ghost var w := Extent(x, xEnd);
    sums, count := NoSums, 0;
    var y1 := y;
    while y1 < y + sqSize && y1 < img.height
      invariant y <= y1 && (y1 == y || y1 <= yEnd)
      invariant sums == RegionSum(img, x, xEnd, y, y1)
      invariant count == w * (y1 - y)
    {
      sums, count := SumSquareRow(img, x, y1, sqSize, sums, count);
      MulSucc(w, y1 - y);
      y1 := y1 + 1;
    }
    assert y1 - y == Extent(y, yEnd);
  }

  /**
   * The inner loop of `colorProfile`: adds the pixels of row y1 with x1 from x while
   * x1 < x + sqSize and x1 < width to the running sums and count.
   */
  method SumSquareRow(img: Image, x: nat, y1: nat, sqSize: nat, sums0: Sums, count0: nat)
    returns (sums: Sums, count: nat)
    requires img.WellFormed() && y1 < img.height
    ensures sums == Plus(sums0, RowSum(img, y1, x, Min(x + sqSize, img.width)))
    ensures count == count0 + Extent(x, Min(x + sqSize, img.width))
  {
    ghost var xEnd := Min(x + sqSize, img.width);
    var sumR: nat, sumG: nat, sumB: nat := sums0.r, sums0.g, sums0.b;
    count := count0;
    var x1 := x;
    while x1 < x + sqSize && x1 < img.width
      invariant x <= x1 && (x1 == x || x1 <= xEnd)
      invariant Sums(sumR, sumG, sumB) == Plus(sums0, RowSum(img, y1, x, x1))
      invariant count == count0 + (x1 - x)
    {
      var p := img.px[y1][x1];
      sumR, sumG, sumB := sumR + p.r, sumG + p.g, sumB + p.b;
      count := count + 1;
      x1 := x1 + 1;
    }
    sums := Sums(sumR, sumG, sumB);
  }

  /** `colorProfile`: allocates the n × n grid and fills it cell by cell, row by row. */
  method ColorProfile(img: Image, sqSize: nat) returns (result: array2<ImageSq>)
    requires img.WellFormed() && sqSize > 0
    ensures fresh(result)
    ensures result.Length0 == GridSize(img, sqSize) && result.Length1 == GridSize(img, sqSize)
    ensures forall j, i :: 0 <= j < result.Length0 && 0 <= i < result.Length1 ==>
      result[j, i] == ProfileCell(img, sqSize, j, i)
  {
    var numSq := img.width / sqSize + 1;
    result := new ImageSq[numSq, numSq];
    for j := 0 to numSq
      invariant forall j', i' :: 0 <= j' < j && 0 <= i' < numSq ==> result[j', i'] == ProfileCell(img, sqSize, j', i')
    {
      for i := 0 to numSq
        invariant forall j', i' :: 0 <= j' < j && 0 <= i' < numSq ==> result[j', i'] == ProfileCell(img, sqSize, j', i')
        invariant forall i' :: 0 <= i' < i ==> result[j, i'] == ProfileCell(img, sqSize, j, i')
      {
        var sq := ProfileSquare(img, sqSize, j, i);
        result[j, i] := sq;
      }
    }
  }

  /**
   * The average of a cell depends on exactly the pixels (x, y) with
   * i·S <= x < min((i+1)·S, width) and j·S <= y < min((j+1)·S, height).
   */
  lemma ProfileCellLocal(img1: Image, img2: Image, sqSize: nat, j: nat, i: nat)
    requires img1.WellFormed() && img2.WellFormed()
    requires img1.width == img2.width && img1.height == img2.height
    requires forall y, x ::
      j * sqSize <= y < Min((j + 1) * sqSize, img1.height) && i * sqSize <= x < Min((i + 1) * sqSize, img1.width)
      ==> img1.px[y][x] == img2.px[y][x]
    ensures ProfileCell(img1, sqSize, j, i) == ProfileCell(img2, sqSize, j, i)
  {
    var x, y := i * sqSize, j * sqSize;
    assert (i + 1) * sqSize == x + sqSize && (j + 1) * sqSize == y + sqSize;
    RegionSumLocal(img1, img2, x, Min(x + sqSize, img1.width), y, Min(y + sqSize, img1.height));
  }

  /** A cell whose in-image pixels all have one colour, and that has some, averages to that colour. */
  lemma UniformCell(img: Image, sqSize: nat, j: nat, i: nat, p: Pixel)
    requires img.WellFormed() && sqSize > 0
    requires j * sqSize < img.height && i * sqSize < img.width
    requires forall y, x ::
      j * sqSize <= y < Min((j + 1) * sqSize, img.height) && i * sqSize <= x < Min((i + 1) * sqSize, img.width)
      ==> img.px[y][x] == p
    ensures ProfileCell(img, sqSize, j, i).avgColor == Some(ColorOf(p))
  {
    var x, y := i * sqSize, j * sqSize;
    assert (i + 1) * sqSize == x + sqSize && (j + 1) * sqSize == y + sqSize;
    UniformRegionAverage(img, x, Min(x + sqSize, img.width), y, Min(y + sqSize, img.height), p);
  }

  lemma MulMonotone(a: nat, b: nat, s: nat)
    requires a <= b
    ensures a * s <= b * s
  {
  }

  /**
   * On a square target, every cell the composer draws (row and column at most n-2)
   * contains at least one pixel, so its average is defined.
   */
  lemma DrawnCellsNonEmpty(img: Image, sqSize: nat, j: nat, i: nat)
    requires img.WellFormed() && sqSize > 0 && img.width == img.height
    requires j < GridSize(img, sqSize) - 1 && i < GridSize(img, sqSize) - 1
    ensures ProfileCell(img, sqSize, j, i).avgColor.Some?
  {
    var w := img.width;
    DivBounds(w, sqSize);
    MulMonotone(j + 1, w / sqSize, sqSize);
    MulMonotone(i + 1, w / sqSize, sqSize);
    assert (j + 1) * sqSize == j * sqSize + sqSize;
    assert (i + 1) * sqSize == i * sqSize + sqSize;
  }

  /**
   * The last column of the grid starts at (n-1)·S; it holds pixels exactly when the
   * width is not a multiple of S (and the row itself lies inside the image).
   */
  lemma LastColumnEmptyIffDivisible(img: Image, sqSize: nat, j: nat)
    requires img.WellFormed() && sqSize > 0
    ensures ProfileCell(img, sqSize, j, GridSize(img, sqSize) - 1).avgColor.None? <==>
            (img.width % sqSize == 0 || j * sqSize >= img.height)
  {
    var w := img.width;
    assert w == (w / sqSize) * sqSize + w % sqSize;
    assert GridSize(img, sqSize) - 1 == w / sqSize;
  }
}
