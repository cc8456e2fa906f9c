/**
 * `closestTileByColor` and `Mosaic`: for every grid cell except those of the last
 * row and the last column, pick the first tile whose average colour is nearest to
 * the cell's, and paste it opaquely into the cell's square of a fresh canvas of
 * (S·n) × (S·n) pixels.
 */
module MosaicComposer {
  import opened Wrappers
  import opened ColorMath
  import opened TilePreprocessor
  import opened ColorProfiler

  /**
   * Tile k is the first nearest to colour c: no tile is nearer, and every tile
   * before it is strictly farther.
   */
  ghost predicate IsFirstNearest(c: Color, tiles: seq<TileImage>, k: nat) {
    k < |tiles| &&
    (forall m :: 0 <= m < |tiles| ==> DistanceSq(c, tiles[k].avgColor) <= DistanceSq(c, tiles[m].avgColor)) &&
    (forall m :: 0 <= m < k ==> DistanceSq(c, tiles[k].avgColor) < DistanceSq(c, tiles[m].avgColor))
  }

  /**
   * The tile the left-to-right scan of `closestTileByColor` ends on: a later tile
   * replaces the current choice only when it is strictly nearer.
   */
  function Nearest(c: Color, tiles: seq<TileImage>): (r: Option<nat>)
    ensures r.None? <==> |tiles| == 0
    ensures r.Some? ==> r.value < |tiles|
  {
    if |tiles| == 0 then None
    else
      var last := |tiles| - 1;
      var prev := Nearest(c, tiles[..last]);
      if prev.None? || DistanceSq(c, tiles[last].avgColor) < DistanceSq(c, tiles[prev.value].avgColor)
      then Some(last)
      else prev
  }

  /** The scan ends on a first nearest tile. */
  lemma {:induction false} NearestIsFirstNearest(c: Color, tiles: seq<TileImage>)
    ensures Nearest(c, tiles).Some? ==> IsFirstNearest(c, tiles, Nearest(c, tiles).value)
  {
    if |tiles| > 0 {
      var last := |tiles| - 1;
      NearestIsFirstNearest(c, tiles[..last]);
    }
  }

  /**
   * The same scan compared on Euclidean distances: `e[k]` is the distance of tile k,
   * the non-negative square root of its squared distance.
   */
  function NearestByDistance(c: Color, tiles: seq<TileImage>, e: seq<real>): (r: Option<nat>)
    requires |e| == |tiles|
    ensures r.None? <==> |tiles| == 0
    ensures r.Some? ==> r.value < |tiles|
  {
    if |tiles| == 0 then None
    else
      var last := |tiles| - 1;
      var prev := NearestByDistance(c, tiles[..last], e[..last]);
      if prev.None? || e[last] < e[prev.value] then Some(last) else prev
  }

  /** Leaving out the square root of `colorDistance` does not change the tile the scan ends on. */
  lemma {:induction false} SquareRootDoesNotChangeChoice(c: Color, tiles: seq<TileImage>, e: seq<real>)
    requires |e| == |tiles|
    requires forall k :: 0 <= k < |e| ==> e[k] >= 0.0 && Sq(e[k]) == DistanceSq(c, tiles[k].avgColor)
    ensures NearestByDistance(c, tiles, e) == Nearest(c, tiles)
  {
    if |tiles| > 0 {
      var last := |tiles| - 1;
      assert forall k :: 0 <= k < last ==> e[..last][k] == e[k] && tiles[..last][k] == tiles[k];
      SquareRootDoesNotChangeChoice(c, tiles[..last], e[..last]);
      var prev := Nearest(c, tiles[..last]);
      if prev.Some? {
        RankingBySquaredDistance(c, tiles[last].avgColor, tiles[prev.value].avgColor, e[last], e[prev.value]);
      }
    }
  }

  /** The first nearest tile is unique, so Nearest returns exactly it. */
  lemma FirstNearestUnique(c: Color, tiles: seq<TileImage>, k: nat)
    requires IsFirstNearest(c, tiles, k)
    ensures Nearest(c, tiles) == Some(k)
  {
    NearestIsFirstNearest(c, tiles);
    var r := Nearest(c, tiles).value;
    assert DistanceSq(c, tiles[r].avgColor) == DistanceSq(c, tiles[k].avgColor);
  }

  /** Of two tiles with the same average colour, the later one is never chosen. */
  lemma EarlierTileWinsTie(c: Color, tiles: seq<TileImage>, m: nat, k: nat)
    requires m < k < |tiles| && tiles[m].avgColor == tiles[k].avgColor
    ensures Nearest(c, tiles) != Some(k)
  {
    NearestIsFirstNearest(c, tiles);
  }

  /**
   * `closestTileByColor`: a linear scan that keeps the first tile of least distance.
   * `None` (a nil result) exactly when there are no tiles.
   */
  method ClosestTileByColor(c: Color, tileImgs: seq<TileImage>) returns (closest: Option<nat>)
    ensures closest.None? <==> |tileImgs| == 0
    ensures closest.Some? ==> IsFirstNearest(c, tileImgs, closest.value)
    ensures closest == Nearest(c, tileImgs)
  {
    closest := None;
    var min: real := 0.0;  // stands for math.MaxFloat64 while closest is None
    for i := 0 to |tileImgs|
      invariant closest == Nearest(c, tileImgs[..i])
      invariant closest.Some? ==> min == DistanceSq(c, tileImgs[closest.value].avgColor)
    {
      assert tileImgs[..i + 1][..i] == tileImgs[..i];
      var dist := DistanceSq(c, tileImgs[i].avgColor);
      if closest.None? || dist < min {
        closest := Some(i);
        min := dist;
      }
    }
    assert tileImgs[..|tileImgs|] == tileImgs;
    NearestIsFirstNearest(c, tileImgs);
  }

  /**
   * `draw.Draw(dest, r, tile, image.ZP, draw.Src)` for the size × size rectangle r
   * with top-left corner (x0, y0): every pixel of r is replaced by the tile pixel at
   * the same offset from the tile's origin; nothing outside r changes.
   */
  method DrawTile(dest: array2<Pixel>, x0: nat, y0: nat, tile: Image, size: nat)
    requires IsSquareImage(tile, size)
    requires y0 + size <= dest.Length0 && x0 + size <= dest.Length1
    modifies dest
    ensures forall py, px :: 0 <= py < dest.Length0 && 0 <= px < dest.Length1 ==>
      dest[py, px] == if y0 <= py < y0 + size && x0 <= px < x0 + size
                      then tile.px[py - y0][px - x0] else old(dest[py, px])
  {
    for dy := 0 to size
      invariant forall py, px :: 0 <= py < dest.Length0 && 0 <= px < dest.Length1 ==>
        dest[py, px] == if y0 <= py < y0 + dy && x0 <= px < x0 + size
                        then tile.px[py - y0][px - x0] else old(dest[py, px])
    {
      for dx := 0 to size
        invariant forall py, px :: 0 <= py < dest.Length0 && 0 <= px < dest.Length1 ==>
          dest[py, px] == if (y0 <= py < y0 + dy && x0 <= px < x0 + size) || (py == y0 + dy && x0 <= px < x0 + dx)
                          then tile.px[py - y0][px - x0] else old(dest[py, px])
      {
        dest[y0 + dy, x0 + dx] := tile.px[dy][dx];
      }
    }
  }

  /** Why `Mosaic` gives up where the original program panics. */
  datatype MosaicError =
    | InvalidSquareSize           // sqSize == 0: integer division by zero
    | EmptyCell(row: nat, col: nat)  // a drawn cell without pixels: NaN average, nil tile
    | NoTiles                     // a drawn cell and no tiles: nil tile

  /** The tile chosen for cell (j, i); `None` when the cell has no pixels or there are no tiles. */
  function CellTile(target: Image, sqSize: nat, tiles: seq<TileImage>, j: nat, i: nat): (k: Option<nat>)
    requires target.WellFormed()
    ensures k.None? <==> ProfileCell(target, sqSize, j, i).avgColor.None? || |tiles| == 0
    ensures k.Some? ==> k.value < |tiles|
  {
    match ProfileCell(target, sqSize, j, i).avgColor
    case None => None
    case Some(c) => Nearest(c, tiles)
  }

  /** Every cell the composer draws gets a tile. */
  ghost predicate Renderable(target: Image, sqSize: nat, tiles: seq<TileImage>)
    requires target.WellFormed() && sqSize > 0
  {
    var n := GridSize(target, sqSize);
    forall j, i :: 0 <= j < n - 1 && 0 <= i < n - 1 ==> CellTile(target, sqSize, tiles, j, i).Some?
  }

  /** Cell (cy, cx) is among the drawn cells that come before cell (y, x) in row-major order. */
  predicate DrawnBefore(n: nat, y: nat, x: nat, cy: nat, cx: nat) {
    cy < n - 1 && cx < n - 1 && (cy < y || (cy == y && cx < x))
  }

  /**
   * The canvas pixel (px, py) once the cells before (y, x) have been drawn: the pixel
   * at the same offset in the tile chosen for the cell that contains it, or Blank.
   */
  function PartialCanvas(target: Image, sqSize: nat, tiles: seq<TileImage>, y: nat, x: nat, py: nat, px: nat): (p: Pixel)
    requires target.WellFormed() && sqSize > 0 && TilesSized(tiles, sqSize)
    ensures DrawnBefore(GridSize(target, sqSize), y, x, py / sqSize, px / sqSize) ==>
      CellTile(target, sqSize, tiles, py / sqSize, px / sqSize).None? ||
      p == tiles[CellTile(target, sqSize, tiles, py / sqSize, px / sqSize).value].img.px[py % sqSize][px % sqSize]
    ensures !DrawnBefore(GridSize(target, sqSize), y, x, py / sqSize, px / sqSize) ==> p == Blank
  {
    var cy, cx := py / sqSize, px / sqSize;
    if DrawnBefore(GridSize(target, sqSize), y, x, cy, cx) then
      match CellTile(target, sqSize, tiles, cy, cx)
      case Some(k) => tiles[k].img.px[py % sqSize][px % sqSize]
      case None => Blank
    else Blank
  }

  /** The finished composite's pixel (px, py). */
  function Canvas(target: Image, sqSize: nat, tiles: seq<TileImage>, py: nat, px: nat): Pixel
    requires target.WellFormed() && sqSize > 0 && TilesSized(tiles, sqSize)
  {
    PartialCanvas(target, sqSize, tiles, GridSize(target, sqSize) - 1, 0, py, px)
  }

  /** The tiles `Mosaic` prepares from the raw tile images. */
  function PreparedTiles(tiles: seq<Image>, sqSize: nat, resize: (Image, nat) -> Image): (prepared: seq<TileImage>)
    requires sqSize > 0 && AllSquare(ResizedTiles(tiles, sqSize, resize), sqSize)
    ensures |prepared| == |tiles| && TilesSized(prepared, sqSize)
  {
    Prepared(ResizedTiles(tiles, sqSize, resize), sqSize)
  }

  /**
   * `Mosaic`: prepares the tiles, profiles the target, allocates a Blank canvas of
   * (S·n) × (S·n) pixels and, for every cell (y, x) with y, x <= n-2 in row-major
   * order, pastes the tile nearest to the cell's average colour into the square
   * [x·S, (x+1)·S) × [y·S, (y+1)·S).
   *
   * Where the original panics the result is a Failure: sqSize == 0, a drawn cell
   * without pixels, or a drawn cell and no tiles. It succeeds exactly when every
   * drawn cell gets a tile.
   */
  method Mosaic(target: Image, tiles: seq<Image>, sqSize: nat, resize: (Image, nat) -> Image)
    returns (result: Result<array2<Pixel>, MosaicError>)
    requires target.WellFormed()
    requires sqSize > 0 ==> AllSquare(ResizedTiles(tiles, sqSize, resize), sqSize)
    ensures sqSize == 0 <==> result == Failure(InvalidSquareSize)
    ensures sqSize > 0 ==> (result.Success? <==> Renderable(target, sqSize, PreparedTiles(tiles, sqSize, resize)))
    ensures result.Failure? && result.error == NoTiles ==> |tiles| == 0
    ensures result.Failure? && result.error.EmptyCell? ==>
      sqSize > 0 &&
      result.error.row < GridSize(target, sqSize) - 1 && result.error.col < GridSize(target, sqSize) - 1 &&
      ProfileCell(target, sqSize, result.error.row, result.error.col).avgColor.None?
    ensures result.Success? ==>
      sqSize > 0 && fresh(result.value) &&
      result.value.Length0 == sqSize * GridSize(target, sqSize) &&
      result.value.Length1 == sqSize * GridSize(target, sqSize) &&
      forall py, px :: 0 <= py < result.value.Length0 && 0 <= px < result.value.Length1 ==>
        result.value[py, px] == Canvas(target, sqSize, PreparedTiles(tiles, sqSize, resize), py, px)
  {
    if sqSize == 0 {
      return Failure(InvalidSquareSize);
    }
    var resized := ResizeImages(tiles, sqSize, resize);
    var tileImgs := PrepareTiles(resized, sqSize);
    var squares := ColorProfile(target, sqSize);
    var n := squares.Length0;
    var dest := new Pixel[sqSize * n, sqSize * n]((_, _) => Blank);
    forall py, px | 0 <= py < dest.Length0 && 0 <= px < dest.Length1
      ensures dest[py, px] == PartialCanvas(target, sqSize, tileImgs, 0, 0, py, px)
    {
      NothingDrawnYet(target, sqSize, tileImgs, py, px);
    }

    // Draw the tile images on the canvas, leaving out the last row and column of cells.
    var y := 0;
    while y < n - 1
      invariant y <= n - 1
      invariant forall j, i :: DrawnBefore(n, y, 0, j, i) ==> CellTile(target, sqSize, tileImgs, j, i).Some?
      invariant forall py, px :: 0 <= py < dest.Length0 && 0 <= px < dest.Length1 ==>
        dest[py, px] == PartialCanvas(target, sqSize, tileImgs, y, 0, py, px)
      modifies dest
    {
      var err := DrawRow(target, sqSize, tileImgs, squares, dest, y);
      if err.Some? {
        CellErrorNotRenderable(target, sqSize, tileImgs, y, err.value);
        return Failure(err.value);
      }
      y := y + 1;
    }
    return Success(dest);
  }

  /**
   * One row of the drawing loop of `Mosaic`: for x = 0 .. n-2, finds the tile for
   * cell (y, x) and pastes it, or stops at the first cell that has no tile.
   */
  method DrawRow(target: Image, sqSize: nat, tileImgs: seq<TileImage>, squares: array2<ImageSq>,
                 dest: array2<Pixel>, y: nat)
    returns (err: Option<MosaicError>)
    requires target.WellFormed() && sqSize > 0 && TilesSized(tileImgs, sqSize)
    requires squares.Length0 == GridSize(target, sqSize) && squares.Length1 == GridSize(target, sqSize)
    requires forall j, i :: 0 <= j < squares.Length0 && 0 <= i < squares.Length1 ==>
      squares[j, i] == ProfileCell(target, sqSize, j, i)
    requires y < GridSize(target, sqSize) - 1
    requires dest.Length0 == sqSize * GridSize(target, sqSize) && dest.Length1 == sqSize * GridSize(target, sqSize)
    requires forall py, px :: 0 <= py < dest.Length0 && 0 <= px < dest.Length1 ==>
      dest[py, px] == PartialCanvas(target, sqSize, tileImgs, y, 0, py, px)
    modifies dest
    ensures err.None? ==> forall i :: 0 <= i < GridSize(target, sqSize) - 1 ==> CellTile(target, sqSize, tileImgs, y, i).Some?
    ensures err.None? ==> forall py, px :: 0 <= py < dest.Length0 && 0 <= px < dest.Length1 ==>
      dest[py, px] == PartialCanvas(target, sqSize, tileImgs, y + 1, 0, py, px)
    ensures err.Some? ==> CellError(target, sqSize, tileImgs, y, err.value)
  {
    err := None;
    var n := squares.Length0;
    var x := 0;
    while x < n - 1
      invariant x <= n - 1 && err.None?
      invariant forall i :: 0 <= i < x ==> CellTile(target, sqSize, tileImgs, y, i).Some?
      invariant forall py, px :: 0 <= py < dest.Length0 && 0 <= px < dest.Length1 ==>
        dest[py, px] == PartialCanvas(target, sqSize, tileImgs, y, x, py, px)
    {
      err := DrawCell(target, sqSize, tileImgs, squares, dest, y, x);
      if err.Some? {
        return;
      }
      x := x + 1;
    }
    RowDone(target, sqSize, tileImgs, dest, y);
  }

  /** After the last drawn cell of row y the canvas is the one before row y + 1. */
  lemma RowDone(target: Image, sqSize: nat, tiles: seq<TileImage>, dest: array2<Pixel>, y: nat)
    requires target.WellFormed() && sqSize > 0 && TilesSized(tiles, sqSize)
    requires forall py, px :: 0 <= py < dest.Length0 && 0 <= px < dest.Length1 ==>
      dest[py, px] == PartialCanvas(target, sqSize, tiles, y, GridSize(target, sqSize) - 1, py, px)
    ensures forall py, px :: 0 <= py < dest.Length0 && 0 <= px < dest.Length1 ==>
      dest[py, px] == PartialCanvas(target, sqSize, tiles, y + 1, 0, py, px)
  {
    forall py, px | 0 <= py < dest.Length0 && 0 <= px < dest.Length1
      ensures dest[py, px] == PartialCanvas(target, sqSize, tiles, y + 1, 0, py, px)
    {
      RowStep(target, sqSize, tiles, y, py, px);
    }
  }

  /** The error `Mosaic` reports for a drawn cell of row y that has no tile. */
  ghost predicate CellError(target: Image, sqSize: nat, tiles: seq<TileImage>, y: nat, e: MosaicError)
    requires target.WellFormed() && sqSize > 0
  {
    match e
    case NoTiles => |tiles| == 0
    case EmptyCell(row, col) =>
      row == y && col < GridSize(target, sqSize) - 1 && ProfileCell(target, sqSize, y, col).avgColor.None?
    case InvalidSquareSize => false
  }

  /**
   * The body of the drawing loop of `Mosaic` for cell (y, x): the tile nearest to the
   * cell's average colour is pasted into the cell's square.
   */
  method DrawCell(target: Image, sqSize: nat, tileImgs: seq<TileImage>, squares: array2<ImageSq>,
                  dest: array2<Pixel>, y: nat, x: nat)
    returns (err: Option<MosaicError>)
    requires target.WellFormed() && sqSize > 0 && TilesSized(tileImgs, sqSize)
    requires y < GridSize(target, sqSize) - 1 && x < GridSize(target, sqSize) - 1
    requires y < squares.Length0 && x < squares.Length1 && squares[y, x] == ProfileCell(target, sqSize, y, x)
    requires dest.Length0 == sqSize * GridSize(target, sqSize) && dest.Length1 == sqSize * GridSize(target, sqSize)
    requires forall py, px :: 0 <= py < dest.Length0 && 0 <= px < dest.Length1 ==>
      dest[py, px] == PartialCanvas(target, sqSize, tileImgs, y, x, py, px)
    modifies dest
    ensures err.None? <==> CellTile(target, sqSize, tileImgs, y, x).Some?
    ensures err.Some? ==> unchanged(dest)
    ensures err.None? ==> forall py, px :: 0 <= py < dest.Length0 && 0 <= px < dest.Length1 ==>
      dest[py, px] == PartialCanvas(target, sqSize, tileImgs, y, x + 1, py, px)
    ensures err.Some? ==> CellError(target, sqSize, tileImgs, y, err.value) && (err.value.EmptyCell? ==> err.value.col == x)
  {
    var sq := squares[y, x];
    if sq.avgColor.None? {
      return Some(EmptyCell(y, x));
    }
    var closest := ClosestTileByColor(sq.avgColor.value, tileImgs);
    if closest.None? {
      return Some(NoTiles);
    }
    var n := GridSize(target, sqSize);
    var x0, y0 := x * sqSize, y * sqSize;
    SquareInCanvas(y, n, sqSize);
    SquareInCanvas(x, n, sqSize);
    DrawTile(dest, x0, y0, tileImgs[closest.value].img, sqSize);
    forall py, px | 0 <= py < dest.Length0 && 0 <= px < dest.Length1
      ensures dest[py, px] == PartialCanvas(target, sqSize, tileImgs, y, x + 1, py, px)
    {
      CellStep(target, sqSize, tileImgs, y, x, py, px);
    }
    err := None;
  }

  /** Before the first cell is drawn the canvas is Blank. */
  lemma NothingDrawnYet(target: Image, sqSize: nat, tiles: seq<TileImage>, py: nat, px: nat)
    requires target.WellFormed() && sqSize > 0 && TilesSized(tiles, sqSize)
    ensures PartialCanvas(target, sqSize, tiles, 0, 0, py, px) == Blank
  {
    assert !DrawnBefore(GridSize(target, sqSize), 0, 0, py / sqSize, px / sqSize);
  }

  /** A drawn cell without a tile means that not every drawn cell gets one. */
  lemma CellErrorNotRenderable(target: Image, sqSize: nat, tiles: seq<TileImage>, y: nat, e: MosaicError)
    requires target.WellFormed() && sqSize > 0
    requires y < GridSize(target, sqSize) - 1
    requires CellError(target, sqSize, tiles, y, e)
    ensures !Renderable(target, sqSize, tiles)
  {
    match e
    case NoTiles =>
      assert CellTile(target, sqSize, tiles, y, 0).None?;
    case EmptyCell(row, col) =>
      assert CellTile(target, sqSize, tiles, y, col).None?;
  }

  lemma SquareInCanvas(c: nat, n: nat, s: nat)
    requires c < n - 1
    ensures 0 <= c * s && c * s + s <= s * n
  {
    MulMonotone(c + 1, n, s);
    MulSucc(c, s);
  }

  /** Drawing cell (y, x) changes exactly the pixels of its square, to those of its tile. */
  lemma CellStep(target: Image, sqSize: nat, tiles: seq<TileImage>, y: nat, x: nat, py: nat, px: nat)
    requires target.WellFormed() && sqSize > 0 && TilesSized(tiles, sqSize)
    requires y < GridSize(target, sqSize) - 1 && x < GridSize(target, sqSize) - 1
    requires CellTile(target, sqSize, tiles, y, x).Some?
    ensures PartialCanvas(target, sqSize, tiles, y, x + 1, py, px) ==
      if y * sqSize <= py < y * sqSize + sqSize && x * sqSize <= px < x * sqSize + sqSize
      then tiles[CellTile(target, sqSize, tiles, y, x).value].img.px[py - y * sqSize][px - x * sqSize]
      else PartialCanvas(target, sqSize, tiles, y, x, py, px)
  {
    CellOf(py, sqSize, y);
    CellOf(px, sqSize, x);
  }

  /** Once the drawn cells of row y are done, the canvas is the one before row y + 1. */
  lemma RowStep(target: Image, sqSize: nat, tiles: seq<TileImage>, y: nat, py: nat, px: nat)
    requires target.WellFormed() && sqSize > 0 && TilesSized(tiles, sqSize)
    ensures PartialCanvas(target, sqSize, tiles, y, GridSize(target, sqSize) - 1, py, px) ==
            PartialCanvas(target, sqSize, tiles, y + 1, 0, py, px)
  {
    var n := GridSize(target, sqSize);
    assert DrawnBefore(n, y, n - 1, py / sqSize, px / sqSize) == DrawnBefore(n, y + 1, 0, py / sqSize, px / sqSize);
  }

  /** Pixel p lies in the c-th band of width s exactly when p / s == c; its offset is then p % s. */
  lemma CellOf(p: nat, s: nat, c: nat)
    requires s > 0
    ensures c * s <= p < c * s + s <==> p / s == c
    ensures p / s == c ==> p % s == p - c * s
  {
    var q := p / s;
    assert p == q * s + p % s;
    if q < c {
      MulMonotone(q + 1, c, s);
      assert (q + 1) * s == q * s + s;
    } else if c < q {
      MulMonotone(c + 1, q, s);
      assert (c + 1) * s == c * s + s;
    }
  }

  /** The squares the composer draws into are pairwise disjoint. */
  lemma DrawnSquaresDisjoint(sqSize: nat, j1: nat, i1: nat, j2: nat, i2: nat, py: nat, px: nat)
    requires sqSize > 0
    requires j1 * sqSize <= py < (j1 + 1) * sqSize && i1 * sqSize <= px < (i1 + 1) * sqSize
    requires j2 * sqSize <= py < (j2 + 1) * sqSize && i2 * sqSize <= px < (i2 + 1) * sqSize
    ensures j1 == j2 && i1 == i2
  {
    assert (j1 + 1) * sqSize == j1 * sqSize + sqSize && (j2 + 1) * sqSize == j2 * sqSize + sqSize;
    assert (i1 + 1) * sqSize == i1 * sqSize + sqSize && (i2 + 1) * sqSize == i2 * sqSize + sqSize;
    CellOf(py, sqSize, j1);
    CellOf(py, sqSize, j2);
    CellOf(px, sqSize, i1);
    CellOf(px, sqSize, i2);
  }

  /**
   * Layout of the composite: the pixel (px, py) = (i·S + ox, j·S + oy) at offset
   * (ox, oy) of drawn cell (j, i) shows the pixel at the same offset of the tile
   * chosen for that cell.
   */
  lemma CanvasShowsChosenTile(target: Image, sqSize: nat, tiles: seq<TileImage>,
                              j: nat, i: nat, oy: nat, ox: nat, py: nat, px: nat)
    requires target.WellFormed() && sqSize > 0 && TilesSized(tiles, sqSize)
    requires Renderable(target, sqSize, tiles)
    requires j < GridSize(target, sqSize) - 1 && i < GridSize(target, sqSize) - 1
    requires oy < sqSize && ox < sqSize
    requires py == j * sqSize + oy && px == i * sqSize + ox
    ensures CellTile(target, sqSize, tiles, j, i).Some?
    ensures Canvas(target, sqSize, tiles, py, px) == tiles[CellTile(target, sqSize, tiles, j, i).value].img.px[oy][ox]
  {
    DivModOf(py, sqSize, j, oy);
    DivModOf(px, sqSize, i, ox);
    CanvasInCell(target, sqSize, tiles, py, px, j, i, oy, ox);
  }

  /**
   * Every canvas pixel (px, py) with px, py < S·(n-1) shows pixel (px mod S, py mod S)
   * of the tile chosen for cell (py / S, px / S).
   */
  lemma CanvasInsideDrawnArea(target: Image, sqSize: nat, tiles: seq<TileImage>, py: nat, px: nat)
    requires target.WellFormed() && sqSize > 0 && TilesSized(tiles, sqSize)
    requires Renderable(target, sqSize, tiles)
    requires py < sqSize * (GridSize(target, sqSize) - 1) && px < sqSize * (GridSize(target, sqSize) - 1)
    ensures CellTile(target, sqSize, tiles, py / sqSize, px / sqSize).Some?
    ensures Canvas(target, sqSize, tiles, py, px)
         == tiles[CellTile(target, sqSize, tiles, py / sqSize, px / sqSize).value].img.px[py % sqSize][px % sqSize]
  {
    var m := GridSize(target, sqSize) - 1;
    DivBelow(py, sqSize, m);
    DivBelow(px, sqSize, m);
    CanvasInCell(target, sqSize, tiles, py, px, py / sqSize, px / sqSize, py % sqSize, px % sqSize);
  }

  lemma DivBelow(p: nat, s: nat, c: nat)
    requires s > 0 && p < s * c
    ensures p / s < c
  {
    CellOf(p, s, p / s);
    MulCancel(p / s, c, s);
  }

  /** A point c·s + o with o < s lies in block c at offset o. */
  lemma DivModOf(p: nat, s: nat, c: nat, o: nat)
    requires s > 0 && o < s && p == c * s + o
    ensures p / s == c && p % s == o
  {
    CellOf(p, s, c);
  }

  /** The canvas pixel in drawn cell (j, i) at offset (ox, oy) is that tile pixel. */
  lemma CanvasInCell(target: Image, sqSize: nat, tiles: seq<TileImage>, py: nat, px: nat, j: nat, i: nat, oy: nat, ox: nat)
    requires target.WellFormed() && sqSize > 0 && TilesSized(tiles, sqSize)
    requires Renderable(target, sqSize, tiles)
    requires j < GridSize(target, sqSize) - 1 && i < GridSize(target, sqSize) - 1
    requires py / sqSize == j && py % sqSize == oy && px / sqSize == i && px % sqSize == ox
    ensures CellTile(target, sqSize, tiles, j, i).Some?
    ensures Canvas(target, sqSize, tiles, py, px) == tiles[CellTile(target, sqSize, tiles, j, i).value].img.px[oy][ox]
  {
    assert CellTile(target, sqSize, tiles, j, i).Some?;
  }

  /**
   * On a square target with at least one tile every drawn cell gets a tile, so
   * `Mosaic` succeeds.
   */
  lemma SquareTargetRenderable(target: Image, sqSize: nat, tiles: seq<TileImage>)
    requires target.WellFormed() && sqSize > 0 && target.width == target.height
    requires |tiles| > 0
    ensures Renderable(target, sqSize, tiles)
  {
    var n := GridSize(target, sqSize);
    forall j: nat, i: nat | j < n - 1 && i < n - 1
      ensures CellTile(target, sqSize, tiles, j, i).Some?
    {
      DrawnCellsNonEmpty(target, sqSize, j, i);
    }
  }

  /** The last row and the last column of cells are never drawn: their pixels stay Blank. */
  lemma CanvasBorderBlank(target: Image, sqSize: nat, tiles: seq<TileImage>, py: nat, px: nat)
    requires target.WellFormed() && sqSize > 0 && TilesSized(tiles, sqSize)
    requires py >= (GridSize(target, sqSize) - 1) * sqSize || px >= (GridSize(target, sqSize) - 1) * sqSize
    ensures Canvas(target, sqSize, tiles, py, px) == Blank
  {
    var n := GridSize(target, sqSize);
    if py >= (n - 1) * sqSize {
      DivAtLeast(py, sqSize, n - 1);
    } else {
      DivAtLeast(px, sqSize, n - 1);
    }
  }

  lemma DivAtLeast(p: nat, s: nat, c: nat)
    requires s > 0 && c * s <= p
    ensures c <= p / s
  {
    CellOf(p, s, p / s);
    assert (p / s + 1) * s == (p / s) * s + s;
    MulCancel(c, p / s + 1, s);
  }

  lemma MulCancel(a: nat, b: nat, s: nat)
    requires s > 0 && a * s < b * s
    ensures a < b
  {
  }
}
