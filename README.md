# go-mosaic photomosaic core in Dafny

This project models the photomosaic generator in `mosaic.go` and proves properties of
the model. The generator does four things:

- It resizes every candidate tile to `sqSize` × `sqSize` and attaches the tile's
  average colour (`resizeimages`, `avgColor`).
- It cuts the target into an n × n grid of squares, with n = width / sqSize + 1, and
  averages the colour of each square over its in-image pixels (`colorProfile`).
- For each square it picks the first tile whose average colour is nearest
  (`colorDistance`, `closestTileByColor`).
- It pastes that tile into a fresh (sqSize·n) × (sqSize·n) canvas. The last row and
  the last column of the grid are never drawn (`Mosaic`).

Layout:

- `wrappers.dfy`: the `Option` and `Result` types.
- `color_math.dfy`: pixels, images, region sums and averages, `avgColor` and the
  colour distance.
- `tile_preprocessor.dfy`: `resizeimages` and the tile-preparation loop of `Mosaic`.
- `color_profiler.dfy`: `colorProfile` and the geometry of its grid.
- `mosaic_composer.dfy`: `closestTileByColor`, the drawing loops of `Mosaic`, and the
  resulting canvas.

Sample values are exact naturals and averages exact reals, so nothing is rounded.
The average of an empty region is `None`; the original computes 0/0 there, a NaN.
Each imperative routine of the original is a Dafny method with its loops. Each method
is proved against a specification function: `ImageAverage`, `ProfileCell`, `Nearest`
and `Canvas`. The lemmas about those functions state the properties.

The grid size comes from the width alone, as in the original. On a target taller
than it is wide, the rows below the grid are ignored. On a target shorter than it is
wide, the drawn cells below the image have no pixels. The original then takes a NaN
average and crashes on a nil tile; the model returns `Failure(EmptyCell(row, col))`.
`ColorProfiler.DrawnCellsNonEmpty` and `MosaicComposer.SquareTargetRenderable` show
that this cannot happen on a square target with at least one tile.

## Model

| member | source | states |
|---|---|---|
| ColorMath.AvgColor | mosaic.go:127-142 | returns the exact average of all pixels of the image (sum per channel over the count); `None` exactly when the image has no pixels |
| ColorMath.AccumulateRow | mosaic.go:132-138 | one pass of the inner loop adds the row's pixel sum to the running sums and the width to the count |
| ColorMath.RegionAverage | mosaic.go:84-96 | the average of a region is defined exactly when both extents are positive |
| ColorMath.ImageAverage | mosaic.go:127-141 | the average of a whole image is defined exactly when it has pixels |
| ColorMath.UniformRowSum | mosaic.go:87-93 | a row segment of one colour p sums to (number of pixels) copies of p |
| ColorMath.UniformRegionSum | mosaic.go:86-95 | a region of one colour p sums to width·height copies of p |
| ColorMath.UniformRegionAverage | mosaic.go:127-141 | a non-empty region of one colour averages to exactly that colour |
| ColorMath.RowSumLocal | mosaic.go:87-93 | a row sum depends only on the pixels inside its segment |
| ColorMath.RegionSumLocal | mosaic.go:86-95 | a region sum depends only on the pixels inside the region |
| ColorMath.DistanceSq | mosaic.go:106-108 | the squared colour distance is non-negative |
| ColorMath.DistanceSymmetric | mosaic.go:106-108 | the distance is symmetric |
| ColorMath.DistanceZeroIffEqual | mosaic.go:106-108 | the distance is zero exactly when the colours are equal |
| ColorMath.RankingBySquaredDistance | mosaic.go:116-117 | for one pair of tiles, comparing Euclidean distances (the square roots) with `<` or `==` gives the same answer as comparing squared distances |
| TilePreprocessor.ResizeImages | mosaic.go:58-67 | one resized image per input, in input order, each the resampler's result for that input |
| TilePreprocessor.PrepareTiles | mosaic.go:32-36 | the tile list keeps the length and the order of the resized images, and each tile carries its own exact average colour |
| TilePreprocessor.UniformTileAverage | mosaic.go:35 | a tile of one colour gets exactly that colour as its average |
| ColorProfiler.GridSize | mosaic.go:73 | the grid side n = width / S + 1 is computed from the width alone and is at least 1 |
| ColorProfiler.GridCoversWidth | mosaic.go:73 | the n columns of width S reach just past the right edge: (n-1)·S <= width < n·S |
| ColorProfiler.ProfileCell | mosaic.go:82-97 | the specification of cell (j, i): its bounds are the full, unclipped S × S square at (i·S, j·S), and its average is the average over the part of that square inside the image (defined only when S > 0) |
| ColorProfiler.ProfileSquare | mosaic.go:82-97 | cell (j, i) has the unclipped bounds Rect(i·S, j·S, (i+1)·S, (j+1)·S); its average is defined exactly when S > 0 and its origin lies inside the image |
| ColorProfiler.SumSquare | mosaic.go:84-95 | the loops sum exactly the pixels with j·S <= y < min((j+1)·S, height) and i·S <= x < min((i+1)·S, width); the count is the product of the two clipped extents |
| ColorProfiler.SumSquareRow | mosaic.go:87-93 | the inner loop adds the clipped row segment's sum and its length |
| ColorProfiler.ColorProfile | mosaic.go:71-102 | the grid is n × n with n = width / S + 1, and every cell holds its profile |
| ColorProfiler.ProfileCellLocal | mosaic.go:84-96 | a cell's profile depends only on the in-image pixels of its square |
| ColorProfiler.UniformCell | mosaic.go:86-96 | a cell whose in-image pixels share one colour, and that has some, averages to that colour |
| ColorProfiler.DrawnCellsNonEmpty | mosaic.go:73-87 | on a square target every cell with row and column at most n-2 has pixels, so its average is defined |
| ColorProfiler.LastColumnEmptyIffDivisible | mosaic.go:73-87 | a cell of the last column is empty exactly when the width is a multiple of S or the row lies below the image |
| MosaicComposer.Nearest | mosaic.go:111-124 | the scan yields no tile exactly when the list is empty, and otherwise a valid index |
| MosaicComposer.NearestByDistance | mosaic.go:115-121 | the same scan keyed on Euclidean distances: no tile exactly for an empty list, otherwise a valid index |
| MosaicComposer.SquareRootDoesNotChangeChoice | mosaic.go:106-121 | when every key is the non-negative square root of the squared distance, the scan on Euclidean distances ends on the same tile as the scan on squared distances |
| MosaicComposer.NearestIsFirstNearest | mosaic.go:115-121 | the chosen tile has minimal distance, and every earlier tile is strictly farther |
| MosaicComposer.FirstNearestUnique | mosaic.go:115-121 | any tile that is minimal with every earlier tile strictly farther is the one chosen |
| MosaicComposer.EarlierTileWinsTie | mosaic.go:117 | of two tiles with the same average colour, the later one is never chosen |
| MosaicComposer.ClosestTileByColor | mosaic.go:111-124 | the loop returns nil exactly for an empty list, and otherwise the first tile of least distance |
| MosaicComposer.CellTile | mosaic.go:48 | the tile chosen for cell (j, i): none exactly when the cell has no pixels or there are no tiles, otherwise a valid index (the result of `Nearest` on the cell's average) |
| MosaicComposer.PartialCanvas | mosaic.go:43-52 | the canvas once the drawn cells before (y, x) in row-major order are done: a pixel of such a cell shows the pixel at offset (px mod S, py mod S) of the cell's tile, every other pixel is zero |
| MosaicComposer.Canvas | mosaic.go:43-52 | the finished composite: the partial canvas once every drawn cell of rows 0 to n-2 is done; `CanvasInsideDrawnArea`, `CanvasShowsChosenTile` and `CanvasBorderBlank` state what it holds |
| MosaicComposer.DrawTile | mosaic.go:50 | the S × S rectangle at (x0, y0) gets the tile's pixels at the same offsets, and every other pixel keeps its value |
| MosaicComposer.Mosaic | mosaic.go:31-55 | S = 0 fails; otherwise it succeeds exactly when every drawn cell gets a tile, and then the canvas is fresh, (S·n) × (S·n), and equal to `Canvas` pixel by pixel; each failure names its cause |
| MosaicComposer.DrawRow | mosaic.go:46-51 | drawing row y gives every cell of the row a tile and extends the canvas by that row, or names the cell that has none |
| MosaicComposer.DrawCell | mosaic.go:48-50 | drawing cell (y, x) succeeds exactly when it gets a tile, and the canvas then includes that cell; on failure the canvas is unchanged |
| MosaicComposer.CellStep | mosaic.go:49-50 | drawing cell (y, x) changes exactly the pixels of its square, to the chosen tile's pixels |
| MosaicComposer.RowStep | mosaic.go:46-47 | after the last drawn cell of a row, the canvas equals the canvas before the next row |
| MosaicComposer.RowDone | mosaic.go:46-47 | the same step for the whole canvas |
| MosaicComposer.NothingDrawnYet | mosaic.go:43 | the canvas starts out all zero |
| MosaicComposer.CellErrorNotRenderable | mosaic.go:48-50 | a drawn cell with no pixels, or a drawn cell with no tiles, means some drawn cell gets no tile |
| MosaicComposer.DrawnSquaresDisjoint | mosaic.go:49 | two drawn rectangles that share a pixel belong to the same cell |
| MosaicComposer.CanvasShowsChosenTile | mosaic.go:49-50 | pixel (i·S + ox, j·S + oy) of drawn cell (j, i) is pixel (ox, oy) of the tile chosen for that cell |
| MosaicComposer.CanvasInsideDrawnArea | mosaic.go:46-50 | every pixel (px, py) with px, py < S·(n-1) is pixel (px mod S, py mod S) of the tile chosen for cell (py / S, px / S) |
| MosaicComposer.CanvasInCell | mosaic.go:49-50 | a pixel in cell (py / S, px / S) at offset (py mod S, px mod S) is that pixel of the cell's tile |
| MosaicComposer.SquareTargetRenderable | mosaic.go:46-48 | on a square target with at least one tile, every drawn cell gets a tile |
| MosaicComposer.CanvasBorderBlank | mosaic.go:41-47 | every pixel of the last row or the last column of cells stays zero |

## Left out

- `resize.Resize` with `NearestNeighbor` is a foreign library. It is the parameter `resize`, and `Mosaic` requires that it return `sqSize` × `sqSize` images when `sqSize` > 0.
- The `image.Image` interface and `RGBA()` are not modelled. A pixel is a triple of natural samples, alpha is ignored, and the 8-bit to 16-bit sample expansion is left out.
- `draw.Draw` is modelled only for the opaque `draw.Src` copy from the tile origin that `Mosaic` uses. The conversion of 16-bit samples back to the 8-bit canvas is left out: the canvas stores the tile's samples as they are.
- Images have their origin at (0, 0). `colorProfile` starts its loops at 0 and not at `Bounds().Min`; images with another origin are not modelled.
- float64 arithmetic is replaced by exact reals. Rounding of the sums and of the division is not modelled.
- ColorMath.DistanceSq: leaves out the final `math.Sqrt`. `SquareRootDoesNotChangeChoice` shows that the square root does not change which tile is chosen.
- MosaicComposer.ClosestTileByColor: the first tile is always taken. In the original the `math.MaxFloat64` sentinel rejects a tile whose distance is infinite or NaN; exact reals have no such distance. A NaN cell average is the `None` of an empty cell, which `Mosaic` reports as `EmptyCell`.
- MosaicComposer.Mosaic: the original always returns a nil error and crashes instead. The model returns a `Failure` for each crash. `sqSize == 0` is an integer division by zero in `colorProfile`. A drawn cell with no pixels, or a drawn cell when there are no tiles, dereferences a nil tile. The model checks `sqSize == 0` before resizing; the original resizes first, then crashes.
- A negative `sqSize` is not modelled, since `sqSize` is a natural number.
- Sample values are unbounded naturals, not 16-bit values in a `uint32`.
